# Models and proofs for the kernel

A small x86_64 kernel holds a calculator, a preemptive scheduler, a heap allocator, an ext2/3 driver, a keyboard queue, a
TCP/IP stack, a physical frame bitmap and a DHCP client. This project models the parts whose correctness is not visible
from one function, in Dafny 4.11, and proves what they are for. `dafny verify dfyconfig.toml` checks everything.

How to read it. Code that changes state is a method, on a class where the source has an object: it does what the source
does, step by step, and its contract equates the new state with a function of the old one. The theorems are lemmas about
those functions, over all inputs, all interleavings or all runs. Where the code does not do what one would expect, the
code is modelled as it is, and a lemma says exactly when it does.

| files | part |
|---|---|
| `CalcTokens`, `CalcSyntax`, `Calc` | tokenizer, expression meaning, shunting-yard compiler and stack machine |
| `Scheduler` | tasks, raw stacks, and the timer interrupt stub, word by word |
| `HeapMath`, `HeapModel`, `HeapRuns`, `HeapBytes`, `HeapLimits`, `HeapAlignment`, `HeapAllocator` | rounding on machine words, the heap as intervals, all runs, where every byte goes, exactly what each promise needs, which heaps stay aligned, and the free lists threaded through memory |
| `Keyboard`, `KeyRing`, `KeyHandler` | key event encoding, the lock-free ring, load by load and store by store, and the interrupt handler with its modifier flags |
| `Wire`, `Segments`, `Tcp`, `TcpRuns`, `TcpLimits`, `TcpConnection` | Internet checksum, TCP and IPv4 headers, the connection machine, its runs, exactly when it resends copies, and the connection object |
| `Bits`, `Frames`, `FrameSharing` | bitwise operations, the frame bitmap, and any number of callers sharing it |
| `Dhcp` | message builder and option scanner |
| `Ext3Layout`, `Ext3Disk`, `Ext3Files`, `Ext3Dirs`, `Ext3Writes`, `Ext3Shrinks`, `Ext3Sharing`, `Ext3Paths`, `Ext3Creation`, `Ext3LostFile`, `Ext3Volume` | on-disk structures, disk operations, block ownership, directory records, whole calls, writes that shrink a file, what such a write can do, path lookup and creation, when a created file is found, a disk on which it is not, and the driver's loops |

## What the proofs found

- `free_block` clears the bit numbered like the block, while allocation lets bit b stand for block b + 1: a freed block
  stays marked, and the block after it loses its mark (`Ext3Files.FreeBlockUnmarksNext`). A write that shrinks a file
  keeps the disk well-formed exactly when no freed block is followed by an owned one (`Ext3Shrinks.WriteKeepsExactly`);
  otherwise two files can come to share a block (`Ext3Sharing.ShrinkingSharesBlocks`).
- Removing the first of several directory records hides all the others (`Ext3Dirs.RemovingDropsOne`), and the step of
  `dir_add_entry` that adjusts the previous record never changes anything (`Ext3Dirs.RelinkingIsIdle`). An entry added
  behind the unused record that removing the last one leaves is never listed (`Ext3Dirs.AddingListsExactly`), so that
  removing one entry and adding another works exactly when the removed one was neither first nor last
  (`Ext3Dirs.RemoveThenAdd`).
- A file created in a directory that ends with an unused record, or named `.` or `..`, is not found afterwards
  (`Ext3Creation.CreatedIsFoundExactly`). `write_file` then creates one file after another, each for one more inode, and
  always ends with an error (`Ext3Creation.WriteSucceedsExactly`); `Ext3LostFile.LosesFile` is such a disk.
- A small allocation that falls back to the large list is released into a bucket. That block is free of overlap exactly
  when the size requested is the bucket's, or the whole region was handed out and holds the bucket's block
  (`HeapLimits.FallbackIsSoundExactly`); on the kernel's heap the first request for 24 bytes aligned to 64 already
  overlaps (`HeapLimits.FirstCallOverlaps`), and `used` comes back only when the size is the bucket's or nothing else was
  in use (`HeapLimits.FallbackUsesExactly`).
- Bucket blocks are not always naturally aligned: a heap serves its clients aligned for ever exactly when its small blocks
  sit on multiples of their sizes (`HeapAlignment.ServesAlignedExactly`), an allowed call ends that exactly when it places
  a small block elsewhere (`HeapRuns.NaturalExactly`), and 260 calls from `init` get there for every block size from 32
  bytes up (`HeapAlignment.RunMisaligns`).
- A large request whose size is not a multiple of 16 can leave a free region smaller than its own header
  (`HeapLimits.HeadersFitExactly`).
- A block of 8 bytes cut from the start of a region puts the new header on the old one's pointer: the new header has size
  0, and a size for a pointer (`HeapAllocator.CutAtStartExactly`). After 256 requests for 8 bytes on a fresh heap the next
  one does so (`HeapAlignment.RunLeavesNoRoom`).
- `listen` keeps the slot's old retry count, so that the first poll after a SYN may already reset the connection
  (`TcpRuns.ListenerGivesUp`); `TcpLimits.RunGivesUp` is a run on which that happens. A slot that was connected to no
  address takes the first peer it hears, and then resends a different segment (`TcpRuns.ArrivalKeepsHandshake`);
  `TcpLimits.ConnectSwitches` is such a run, and no other slot does so (`TcpLimits.ResendsOnlyCopiesExactly`).
- `clear` of the keyboard ring is not atomic: what is accepted between its load and its store survives it
  (`KeyRing.ClearKeepsLaterPushes`).
- Only control characters of one byte survive the key encoding (`KeyEvents.RoundTrip`). The keyboard produces no others
  (`KeyHandler.TypedSurvives`). Both shift keys share one flag, which the release of either clears, and the right control
  key is ignored (`KeyHandler.FlagsAre`).
- `init` of the frame bitmap reserves the kernel's pages with no effect, since they lie below the first frame
  (`Frames.FrameAllocator.Init`).

## Model

| member | source | states |
|---|---|---|
| CalcTokens.Tokenize | src/shell/calc.rs:17-57 | the scanning loop computes the token specification on every byte string, errors included |
| CalcTokens.LexAccepts | src/shell/calc.rs:17-57 | any layout of lexemes with any white space is read back, `-` as sign or operator by the token before it |
| CalcTokens.LexSound | src/shell/calc.rs:17-57 | whatever is accepted is such a layout |
| CalcTokens.TokenizeExactly | src/shell/calc.rs:17-57 | a text gives a token list if and only if it is a layout of exactly those tokens |
| CalcTokens.DecimalRoundTrip | src/shell/calc.rs:28-44 | decimal digits are read back as the number they print |
| CalcTokens.LiteralSpells | src/shell/calc.rs:28-44 | every 64-bit literal, the least one included, has a spelling that is read back |
| CalcSyntax.CheckedIsExact | src/shell/calc.rs:110-118 | checked evaluation is exact integer evaluation, and fails exactly when some sub-operation overflows or divides by zero |
| CalcSyntax.MinimalIsBracketed | src/shell/calc.rs:59-65 | brackets only where precedence and left associativity need them suffice |
| Calc.ShuntingYard | src/shell/calc.rs:67-101 | the loop over tokens with its operator stack computes the translation function |
| Calc.EvalRpn | src/shell/calc.rs:103-129 | the stack loop computes the postfix value function |
| Calc.Eval | src/shell/calc.rs:3-7 | the three stages together compute the value of the text |
| Calc.Translates | src/shell/calc.rs:67-101 | for any operator stack and output that hold no stronger operator, a printed expression emits its postfix form up to the operators still held |
| Calc.ShuntingYardIsCorrect | src/shell/calc.rs:67-101 | every bracketed print of an expression is translated, to exactly the postfix form of its meaning |
| Calc.RpnIsCorrect | src/shell/calc.rs:103-129 | on any stack, a postfix form pushes the checked value of its expression, or fails when there is none |
| Calc.PrintedValue | src/shell/calc.rs:67-129 | a printed expression evaluates to its exact value, or to the arithmetic error exactly when some sub-operation faults |
| Calc.PrintingIsUnambiguous | src/shell/calc.rs:67-101 | two prints with the same tokens mean the same expression |
| Calc.PrintAlternates | src/shell/calc.rs:22-44 | operands and operators alternate in a print, so that every `-` is read as intended |
| Calc.EvalOfPrintedText | src/shell/calc.rs:3-129 | the text of any print, with any white space and extra brackets, evaluates to the expression's value or fails exactly when it faults |
| Calc.EvalOfMinimalText | src/shell/calc.rs:3-129 | the same for the text with no more brackets than needed |
| Calc.ToPostfixConserves | src/shell/calc.rs:67-101 | any token list fails exactly when a bracket stays open; otherwise all operands come out in order, and each operator as often as it went in |
| Calc.EvalNeverBadRpn | src/shell/calc.rs:103-129 | no text reaches the evaluator's error for brackets |
| Cpu.FrameRoundTrip | src/asm.rs:361-395 | the processor context is recovered from its saved frame |
| Cpu.ContextRoundTrip | src/asm.rs:361-395 | every twenty words are the saved frame of the context they load |
| Cpu.ReadBack | src/scheduler.rs:60-86 | words written below an address are read back in order |
| Scheduler.Kernel.Init | src/scheduler.rs:41-47 | task 0 becomes ready, and nothing else changes |
| Scheduler.Kernel.Spawn | src/scheduler.rs:49-102 | the first free slot from 1 on gets a start frame on its own stack, or -1 is returned and nothing changes |
| Scheduler.Kernel.StartFrame | src/scheduler.rs:60-86 | the twenty words written are the frame of the entry's initial context |
| Scheduler.Kernel.Schedule | src/scheduler.rs:130-157 | the search loop computes the round-robin switch, the fallback included |
| Scheduler.Kernel.Irq0 | src/asm.rs:361-395 | fifteen pushes, the call, the stack switch and fifteen pops make up one switch of context, whatever the handler leaves below the frame |
| Scheduler.Kernel.SaveFrame | src/asm.rs:361-376 | the interrupt and the pushes store exactly the context, below the aligned stack pointer |
| Scheduler.Kernel.RestoreFrame | src/asm.rs:379-395 | the pops and the return load exactly the frame |
| Scheduler.SearchSucceeds | src/scheduler.rs:141-155 | in every good state the search finds a ready task: the fallback is never reached |
| Scheduler.RunsAreGood | src/scheduler.rs:41-157 | every state of every run keeps the task table and the saved stack pointers in order |
| Scheduler.ExactlyOneRunning | src/scheduler.rs:130-157 | from the first tick on exactly the current task is running |
| Scheduler.ResumedExactly | src/asm.rs:361-395 | a task is resumed with exactly the fifteen registers, RIP, CS, RFLAGS, RSP and SS it was preempted with, and its stack above RSP intact |
| Scheduler.SpawnedStartsAtEntry | src/scheduler.rs:60-89 | the first resume of a spawned task is at its entry with RFLAGS 0x200, RSP stack top - 8 and zero registers |
| Scheduler.WaitsLess | src/scheduler.rs:140-151 | each tick brings the search nearer to a waiting task, by circular distance, whatever is spawned |
| Scheduler.DispatchedInTime | src/scheduler.rs:130-157 | every ready task runs within as many ticks as its circular distance from the current task, at most 8, which only the current task itself can need |
| Scheduler.DispatchedWithinSevenTicks | src/scheduler.rs:130-157 | every ready task other than the current one runs within seven ticks |
| HeapMath.AlignUpMasks | src/memory/bucket_allocator.rs:316-318 | adding and masking a machine word is rounding down the sum |
| HeapMath.AlignUpOnWords | src/memory/bucket_allocator.rs:316-318 | `align_up` gives the least multiple not below the address exactly when the sum does not overflow, and 0 otherwise |
| HeapModel.CarveTakes | src/memory/bucket_allocator.rs:186-223 | a large allocation removes exactly its bytes from the free list, or the whole region when too little is left |
| HeapModel.InsertAdds | src/memory/bucket_allocator.rs:240-313 | a release adds exactly the freed bytes, whichever neighbours it merges with, and the list stays ordered and coalesced |
| HeapModel.AllocKeeps | src/memory/bucket_allocator.rs:164-223 | an allocation that a bucket serves, or whose size is its bucket's and a multiple of 16, keeps the heap invariant; for all others see HeapLimits.AllocKeepsExactly |
| HeapModel.FreeKeeps | src/memory/bucket_allocator.rs:225-313 | releasing a live block keeps the invariant and lowers `used` by what the block counted |
| HeapRuns.CarvedInv | src/memory/bucket_allocator.rs:119-148 | the heap that `init` carves, with room for all nine buckets, satisfies the invariant |
| HeapRuns.RunKeepsInv | src/memory/bucket_allocator.rs:119-313 | so does the heap after any run of safe allocations and matching releases |
| HeapRuns.PiecesDisjoint | src/memory/bucket_allocator.rs:119-313 | under the invariant no two live blocks, bucket blocks or large regions share a byte |
| HeapRuns.HeapIsSeparated | src/memory/bucket_allocator.rs:119-313 | in every run all pieces are disjoint and inside the heap, each free header is inside its own piece, the large list is coalesced and `used` is the sum of live sizes |
| HeapRuns.EveryByteAccounted | src/memory/bucket_allocator.rs:119-313 | a heap byte is dropped if and only if it lies in no live block, bucket block or large region |
| HeapBytes.BytesAddUp | src/memory/bucket_allocator.rs:119-313 | in every state of every run, bytes in bucket blocks, bytes in large regions, `used` and the number of dropped bytes sum to the heap's size |
| HeapBytes.CallConserves | src/memory/bucket_allocator.rs:164-313 | every allowed call keeps that sum |
| HeapBytes.NewlyLostExactly | src/memory/bucket_allocator.rs:199-214 | an allocation drops a byte exactly when too little is left of the region that serves it and the byte is the region's but not the block's |
| HeapBytes.LostStaysLost | src/memory/bucket_allocator.rs:164-313 | a dropped byte is never handed out again |
| HeapRuns.FirstFitFindsAny | src/memory/bucket_allocator.rs:190-221 | the first-fit search succeeds whenever some region fits |
| HeapRuns.NothingLost | src/memory/bucket_allocator.rs:199-214 | with alignments up to 16 no allocation drops a byte |
| HeapRuns.RunLosesNothing | src/memory/bucket_allocator.rs:119-313 | nor does any run of them |
| HeapRuns.AllocIsAligned | src/memory/bucket_allocator.rs:164-184 | a heap whose small blocks sit on multiples of their sizes hands out multiples of the requested alignment |
| HeapRuns.NaturalExactly | src/memory/bucket_allocator.rs:164-238 | an allowed call keeps such a heap so if and only if it is not a small request placed by the large list off a multiple of its block's size |
| HeapRuns.NaturalAlignmentSuffices | src/memory/bucket_allocator.rs:164-196 | a small request that asks for its natural alignment is never so placed |
| HeapRuns.RunIsAligned | src/memory/bucket_allocator.rs:119-184 | in every run, up to the first call that is so placed, every pointer is a multiple of the alignment requested |
| HeapAlignment.ServesAlignedExactly | src/memory/bucket_allocator.rs:164-238 | all continuations in which small requests ask for natural alignment are served aligned if and only if all small blocks, free and live, sit on multiples of their sizes |
| HeapAlignment.SmallestStayNatural | src/memory/bucket_allocator.rs:164-196 | blocks of 8 and 16 bytes are never placed off their size |
| HeapAlignment.RunMisaligns | src/memory/bucket_allocator.rs:119-238 | a run from `init`, for every block size from 32 bytes up, that ends with a pointer 16 bytes off the alignment requested |
| HeapLimits.FallbackIsSoundExactly | src/memory/bucket_allocator.rs:180-238 | the bucket block that a small fallback becomes on release consists of bytes taken off the large list if and only if the size is the bucket's, or the whole region was handed out and holds the block |
| HeapLimits.FallbackUsesExactly | src/memory/bucket_allocator.rs:173-232 | `used` returns to its value if and only if the size is the bucket's or nothing was in use |
| HeapLimits.FirstCallOverlaps | src/memory/bucket_allocator.rs:119-238 | on the kernel's 2 MiB heap the first request for 24 bytes aligned to 64 and its release put a block on the 32-byte list that shares a byte with the large list |
| HeapLimits.AllocKeepsExactly | src/memory/bucket_allocator.rs:164-223 | an allocation keeps the heap invariant if and only if it is one that runs allow, or fails, or takes the last bytes of its region for at most 8 |
| HeapLimits.HeadersFitExactly | src/memory/bucket_allocator.rs:199-214 | on a fresh heap, after two large requests, the second aligned to 16, every free region has room for its header if and only if the first size is a multiple of 16 |
| HeapAlignment.RunLeavesNoRoom | src/memory/bucket_allocator.rs:119-214 | after `init` and 256 requests for 8 bytes the next one is cut from the start of a region, where the header of the rest does not fit behind the region's own |
| HeapAllocator.CutAtStartExactly | src/memory/bucket_allocator.rs:199-206 | the stores for a block of a multiple of 8 bytes at the start of a region leave the list without that block if and only if the block is at least 16 bytes long; otherwise the new header holds size 0 and a pointer that is a size |
| HeapAllocator.ClientWritesAreHarmless | src/memory/bucket_allocator.rs:12-16 | whatever clients write into live blocks, the lists threaded through memory stay intact |
| HeapAllocator.Splice | src/memory/bucket_allocator.rs:186-223 | rewriting a stretch of the linked list and the pointer that leads there replaces that stretch of regions |
| HeapAllocator.BucketAllocator.constructor | src/memory/bucket_allocator.rs:108-117 | all buckets empty and unset, no large region |
| HeapAllocator.BucketAllocator.Init | src/memory/bucket_allocator.rs:119-148 | for a heap with room for all nine buckets, the pointers written stand for the carved heap |
| HeapAllocator.BucketAllocator.InitBucket | src/memory/bucket_allocator.rs:37-54 | a bucket's blocks are chained in address order, ending with no next, and both its counters are 256 |
| HeapAllocator.BucketAllocator.TakeBlock | src/memory/bucket_allocator.rs:57-67 | the head of the chain is unlinked, and the free counter is the length of the chain |
| HeapAllocator.BucketAllocator.PutBlock | src/memory/bucket_allocator.rs:70-77 | the block becomes the head of the chain, and the free counter is the length of the chain |
| HeapAllocator.BucketAllocator.FindBucket | src/memory/bucket_allocator.rs:155-162 | the first bucket that is large enough |
| HeapAllocator.BucketAllocator.Alloc | src/memory/bucket_allocator.rs:164-184 | on pointers and words, a request that HeapModel.AllocKeeps covers is the allocation of the abstract heap: same block, same lists |
| HeapAllocator.BucketAllocator.AllocLarge | src/memory/bucket_allocator.rs:186-223 | for any size whose first fit has room for the header of the rest, the first fit is cut out of the chain, and only words of listed regions change |
| HeapAllocator.RoomInside | src/memory/bucket_allocator.rs:199-214 | there is such room exactly when the size is at least 16, or the block does not start its region, or nothing is left of the region |
| HeapAllocator.BucketAllocator.FindFit | src/memory/bucket_allocator.rs:190-196 | for any size the cursor stops at the first region that fits, or the search fails as the list or a word ends |
| HeapAllocator.BucketAllocator.CutRegion | src/memory/bucket_allocator.rs:199-216 | the three outcomes of a split, as changes of the chain |
| HeapAllocator.BucketAllocator.Dealloc | src/memory/bucket_allocator.rs:225-238 | on pointers and words, the release of the abstract heap |
| HeapAllocator.BucketAllocator.DeallocLarge | src/memory/bucket_allocator.rs:240-313 | the chain becomes the old list with the interval inserted; out-of-range blocks change nothing |
| HeapAllocator.BucketAllocator.FindSpot | src/memory/bucket_allocator.rs:252-312 | the walk stops between the regions below and above the address |
| HeapAllocator.BucketAllocator.Join | src/memory/bucket_allocator.rs:261-304 | each merge case leaves the chain of the merged list |
| KeyEvents.RoundTrip | src/keyboard.rs:24-60 | the encoding is undone exactly for events whose character fits one byte |
| KeyEvents.TranslatedSurvives | src/keyboard.rs:191-241 | every event of a key without the extended prefix survives the encoding |
| KeyRing.PushRefines | src/keyboard.rs:72-81 | each load and store of `push` is a step of a queue of capacity 63; it drops only when the queue was full at its tail load |
| KeyRing.PopRefines | src/keyboard.rs:83-92 | each load and store of `pop` is a queue step; it returns nothing only when the queue was empty at its head load |
| KeyRing.ClearRefines | src/keyboard.rs:94-97 | each of `clear`'s two accesses is a queue step |
| KeyRing.StepRefines | src/keyboard.rs:71-98 | every step of either side is a queue step |
| KeyRing.EveryRunIsAFifoRun | src/keyboard.rs:71-98 | every interleaving is a run of the queue: the ring is linearizable |
| KeyRing.EveryEventOnce | src/keyboard.rs:71-98 | each accepted word leaves once and in order, delivered or cleared, or is still queued |
| KeyRing.RingDelivers | src/keyboard.rs:24-98 | in every run from power-up each accepted event is delivered intact and in order, or discarded by a `clear`, or among the at most 63 still queued |
| KeyRing.ClearKeepsLaterPushes | src/keyboard.rs:94-97 | after a `clear` exactly the events accepted between its load and its store are left |
| KeyRing.LockFreeRing.Push | src/keyboard.rs:72-81 | undisturbed, the queue grows by the event unless it holds 63 |
| KeyRing.LockFreeRing.Pop | src/keyboard.rs:83-92 | undisturbed, the oldest event is returned and removed |
| KeyRing.LockFreeRing.Clear | src/keyboard.rs:94-97 | undisturbed, the queue is empty afterwards |
| KeyRing.CallsAlone | src/keyboard.rs:71-98 | the methods are the step machine run without interruption |
| KeyHandler.FlagsAre | src/keyboard.rs:106-147 | after any sequence of scan codes the shift, or control, flag is set exactly when some press of such a key has no release of one behind it, where codes behind a prefix do not count, and the prefix flag exactly when the last code is the prefix |
| KeyHandler.TypedSurvives | src/keyboard.rs:111-217 | every event pushed for any sequence of scan codes, extended keys included, survives the encoding |
| KeyHandler.TypedIsDelivered | src/keyboard.rs:24-217 | whatever of it the ring accepts is read back unchanged and in order, in every interleaving with the shell's reads and clears |
| KeyHandler.Keyboard.HandleIrq | src/keyboard.rs:111-139 | one interrupt changes the flags and the ring as specified for its scan code; the mouse's bytes change nothing |
| Wire.Fold | src/drivers/net/ipv4.rs:23-25 | end-around carry ends, keeps the sum modulo 0xFFFF, and is 0 only for 0 |
| Wire.Checksum | src/drivers/net/ipv4.rs:13-27 | the loop never overflows 32 bits and computes the complement of the folded sum, odd lengths included |
| Wire.StoredChecksumIsAccepted | src/drivers/net/ipv4.rs:81-82 | storing the checksum in its zero word makes the whole sum to 0xFFFF |
| Wire.OneWordChange | src/drivers/net/ipv4.rs:13-27 | changing one word of accepted data goes unnoticed only between 0 and 0xFFFF |
| Segments.TcpChecksum | src/drivers/net/tcp.rs:237-260 | checksum with pseudo header, without overflow, for every segment up to 65535 bytes |
| Segments.BuildTcp | src/drivers/net/tcp.rs:114-147 | the buffer holds the finished segment and is otherwise unchanged; nothing is written when it is too small |
| Segments.SegmentIsAccepted | src/drivers/net/tcp.rs:143-144 | a finished segment with its pseudo header sums to 0xFFFF |
| Segments.SegmentChecksumIsZero | src/drivers/net/tcp.rs:237-260 | `tcp_checksum` of a finished segment is 0, odd and even lengths |
| Segments.ParseOfSegment | src/drivers/net/tcp.rs:82-147 | parsing a built segment gives back every field and the payload, flags in six bits |
| Segments.SegmentChangeIsNoticed | src/drivers/net/tcp.rs:237-260 | any change of one word of a segment shows, except between 0 and 0xFFFF |
| Segments.BuildIp | src/drivers/net/ipv4.rs:59-84 | the buffer holds the finished header |
| Segments.IpRoundTrip | src/drivers/net/ipv4.rs:30-84 | a built header has checksum 0 and parses back; its total length is right exactly up to 65515 payload bytes |
| TcpRuns.ReachableIsGood | src/drivers/net/tcp.rs:282-481 | in every reachable state at most 3 retries, timeout 1000 * 2^retries, everything received acknowledged, and the pending resend is the SYN or FIN at the present sequence number |
| TcpRuns.StepWaits | src/drivers/net/tcp.rs:376-395 | while a SYN or FIN is unacknowledged a call does nothing to it, fills in a missing part of the peer's address, or resends it once its timeout has passed |
| TcpRuns.EntrySends | src/drivers/net/tcp.rs:465-471 | entering such a state sends its SYN or FIN last |
| TcpRuns.ResendsAreIdentical | src/drivers/net/tcp.rs:376-395 | until the state changes at most 3 packets are sent, with exponential backoff; all are copies of the first, byte for byte, if and only if none is resent after an arrival filled in a missing part of the peer's address, which with a known peer never happens |
| TcpRuns.HandshakeShowsPeer | src/drivers/net/tcp.rs:399-463 | for connections that differ in the peer at most, the pending SYN or FIN is the same packet if and only if the peer is the same |
| TcpLimits.ResendsOnlyCopiesExactly | src/drivers/net/tcp.rs:376-553 | over all further calls on a clock, every packet sent in that state is a copy of the SYN or FIN if and only if the peer's address and port are known or no retry is left |
| TcpLimits.ConnectSwitches | src/drivers/net/tcp.rs:282-553 | from a fresh slot, `connect` to no address, one segment from a peer and a poll a second later send two different packets |
| TcpRuns.ArrivalKeepsHandshake | src/drivers/net/tcp.rs:523-528 | an arrival changes what will be resent exactly when it fills in a missing peer address or port |
| TcpRuns.ListenerGivesUp | src/drivers/net/tcp.rs:264-280 | after `listen` and a SYN, a poll gives up at once exactly when the slot's old count is 3 |
| TcpLimits.RunGivesUp | src/drivers/net/tcp.rs:264-395 | a run of eight calls from a fresh slot ends closed with count 3, and its next listener is reset by the first poll after a SYN |
| TcpRuns.CallStreams | src/drivers/net/tcp.rs:603-646 | what is read plus what waits grows by what was taken from the stream and fitted |
| TcpRuns.PieceIsNext | src/drivers/net/tcp.rs:625-629 | a segment cut from a stream shorter than 2^32 is taken only if it is the next piece |
| TcpRuns.ReaderSeesStream | src/drivers/net/tcp.rs:603-646 | under any loss, repetition and reordering the acknowledged prefix of the stream is what was read plus what waits, if and only if every piece taken fitted the buffer |
| TcpRuns.ReaderSeesStreamFromStart | src/drivers/net/tcp.rs:321-334 | from an empty buffer the reader sees the peer's stream exactly |
| TcpConnection.TcpConn.SendRaw | src/drivers/net/tcp.rs:399-463 | the packet is built, noted for a resend when it bears SYN, FIN or data, and sent |
| TcpConnection.TcpConn.CheckRetransmit | src/drivers/net/tcp.rs:376-395 | give up, resend and double the timeout, or wait |
| TcpConnection.TcpConn.HandleEstablished | src/drivers/net/tcp.rs:603-646 | the whole new state after a segment in that state |
| TcpConnection.TcpConn.TakeAck | src/drivers/net/tcp.rs:604-623 | acknowledged bytes leave the send buffer, the rest is sent again |
| TcpConnection.TcpConn.HandleFinWait1 | src/drivers/net/tcp.rs:648-667 | the whole new state after a segment while closing |
| TcpConnection.TcpConn.HandleCloseWait | src/drivers/net/tcp.rs:686-699 | the whole new state after a segment from a peer that closed |
| TcpConnection.TcpConn.Receive | src/drivers/net/tcp.rs:502-553 | parsing, matching, reset and dispatch for one slot |
| TcpConnection.TcpConn.Send | src/drivers/net/tcp.rs:305-319 | what fits is buffered and sent, and its length returned |
| TcpConnection.TcpConn.Recv | src/drivers/net/tcp.rs:321-334 | the oldest waiting bytes are copied out and removed |
| TcpConnection.TcpConn.Close | src/drivers/net/tcp.rs:336-354 | waiting data and a FIN are sent from the two closable states |
| TcpConnection.TcpConn.Poll | src/drivers/net/tcp.rs:710-734 | the periodic action of each state |
| FrameBitmap.WordsRefineSet | src/memory/paging.rs:20-34 | the atomic word operations are removal from and addition to the set of free frames, for any frame count, spare bits staying clear |
| Frames.AddressOfFrame | src/memory/paging.rs:13-18 | addresses of frames are page-aligned, in range, and lead back to their frame |
| Frames.FrameAllocator.Init | src/memory/paging.rs:48-68 | every frame becomes free |
| Frames.FrameAllocator.SetBit | src/memory/paging.rs:20-34 | one frame enters or leaves the free set, out-of-range numbers do nothing |
| Frames.FrameAllocator.TestBit | src/memory/paging.rs:36-46 | membership in the free set |
| Frames.FrameAllocator.AllocFrame | src/memory/paging.rs:84-98 | alone, the least free frame is taken and its address returned, 0 when there is none or before `init` |
| Frames.FrameAllocator.FreeFrame | src/memory/paging.rs:101-108 | an aligned address in range makes its frame free, any other changes nothing |
| Frames.FrameAllocator.Stats | src/memory/paging.rs:110-118 | the numbers returned count the free set |
| FrameSharing.NoFrameHasTwoOwners | src/memory/paging.rs:84-108 | with any number of callers interleaved at each atomic operation, every frame is free or has exactly one owner |
| FrameSharing.TakenFrameWasNobodys | src/memory/paging.rs:92-95 | the frame a probe takes was free and nobody's |
| FrameSharing.FailureSawEveryFrameTaken | src/memory/paging.rs:88-97 | `alloc_frame` fails only after it saw each frame taken during that same call |
| Dhcp.ParseOptions | src/drivers/net/dhcp.rs:83-128 | the scanning loop is in bounds, ends, and computes the scan of every byte string |
| Dhcp.ScanIsLastValues | src/drivers/net/dhcp.rs:83-128 | scanning serialised options with pads, up to an end tag or truncation, gives the last well-sized value of each recognised tag |
| Dhcp.EveryStringIsAList | src/drivers/net/dhcp.rs:90-126 | every byte string is such a list and such a tail |
| Dhcp.BuildMessage | src/drivers/net/dhcp.rs:28-79 | the buffer grows to exactly the message |
| Dhcp.ReplyOfMessage | src/drivers/net/dhcp.rs:132-158 | a built message is read back, with type and server, exactly when it is a reply with the expected id and hardware address |
| Ext3Layout.InodeRoundTrip | src/fs/ext3.rs:95-116 | the packed inode determines every field |
| Ext3Layout.SlotRoundTrip | src/fs/ext3.rs:284-292 | a slot written reads back, and the other slots of the block are unchanged |
| Ext3Files.InodeSlots | src/fs/ext3.rs:273-293 | `write_inode` then `read_inode` returns the inode, and every other inode of every group is as before |
| Ext3Files.AllocKeeps | src/fs/ext3.rs:245-249 | an allocated block had no owner, and giving it one keeps the disk well-formed |
| Ext3Files.GrowKeeps | src/fs/ext3.rs:300-316 | growing a file takes unowned blocks only, even when it fails half way |
| Ext3Files.FillWrites | src/fs/ext3.rs:319-331 | every piece of the data goes to its own block and to nobody else's |
| Ext3Files.FreeBlockUnmarksNext | src/fs/ext3.rs:252-255 | after freeing a block every owned block is still marked exactly when the next block has no owner or no bit |
| Ext3Shrinks.WriteKeepsExactly | src/fs/ext3.rs:296-344 | a successful write gives each freed block no owner, leaves all other owners, and keeps the disk well-formed if and only if no freed block is followed by an owned one below the bitmap's end |
| Ext3Sharing.FreshIsWellFormed | src/fs/ext3.rs:224-249 | a small empty file system is well-formed |
| Ext3Sharing.ShrinkingSharesBlocks | src/fs/ext3.rs:224-344 | on it, after writing one byte to files 1 and 2, emptying file 1 and writing one byte to file 3, file 2 reads as file 3's byte |
| Ext3Files.WriteIsPrivate | src/fs/ext3.rs:296-344 | a write changes no block of another file, table or descriptor, failing or not, and keeps the disk well-formed when the file does not shrink |
| Ext3Files.WriteReadsBack | src/fs/ext3.rs:626-647 | a successful write reads back as exactly the data, also when the file shrinks |
| Ext3Dirs.RelinkingIsIdle | src/fs/ext3.rs:374-391 | the walk over the records before the new one never changes anything |
| Ext3Dirs.WalkLists | src/fs/ext3.rs:650-677 | the listing of records that tile the data, with nothing or an unused record behind them, is those records |
| Ext3Dirs.AddingAppends | src/fs/ext3.rs:347-396 | adding to tiled records appends one record and lists it last |
| Ext3Dirs.AddingListsExactly | src/fs/ext3.rs:347-396 | behind records with nothing or an unused record after them, the added entry is listed if and only if there is no unused record |
| Ext3Dirs.RemovingDropsOne | src/fs/ext3.rs:399-451 | removing a record lists the others in order exactly unless it is the first of several, and then nothing is listed |
| Ext3Dirs.RemovingNeedsTheName | src/fs/ext3.rs:407-423 | removal fails exactly when no record has the name |
| Ext3Dirs.RemoveThenAdd | src/fs/ext3.rs:347-451 | removing a record and adding an entry lists the others and the new one if and only if the removed record was neither the first nor the last; after the last only the others are listed, after the first nothing |
| Ext3Dirs.AddThenRemove | src/fs/ext3.rs:347-451 | adding a new name and removing it restores the listing |
| Ext3Writes.WriteOneFile | src/fs/ext3.rs:519-524 | writing one file through its inode: reads back, leaves every other file as it was, and keeps every block owned at most once and marked |
| Ext3Writes.FilesRemember | src/fs/ext3.rs:519-524 | after any run of successful non-shrinking writes each file holds what was last written to it |
| Ext3Writes.BlocksAreNotShared | src/fs/ext3.rs:296-316 | no two places of any inodes share a block |
| Ext3Writes.DirAddLists | src/fs/ext3.rs:347-396 | on disk, `read_dir_inode` after `dir_add_entry` is the old listing and the new entry |
| Ext3Writes.DirAddListsExactly | src/fs/ext3.rs:347-396 | on disk, the same with an unused record behind the others: then the listing stays as it was |
| Ext3Writes.DirRemoveLists | src/fs/ext3.rs:399-451 | on disk, the listing after `dir_remove_entry` is the old one without that entry, or empty when it was the first of several |
| Ext3Writes.DirRemoveThenAdd | src/fs/ext3.rs:347-451 | on disk, the listing after removing one entry and adding another is the same |
| Ext3Writes.DirAddThenRemove | src/fs/ext3.rs:347-451 | on disk, adding and removing a new name restores the listing |
| Ext3Paths.LocateStaysInside | src/fs/ext3.rs:680-716 | on a well-formed file system a lookup ends at an inode that exists, as it is on disk |
| Ext3Paths.LocateEndsTaken | src/fs/ext3.rs:680-716 | every inode that a lookup ends at is marked used |
| Ext3Paths.NewInodeKeeps | src/fs/ext3.rs:479-498 | allocating and writing an empty inode takes one free bit, so an inode that no directory names, and disturbs no other file |
| Ext3Paths.EnterKeeps | src/fs/ext3.rs:500-502 | entering the name keeps the disk well-formed, the inode bitmap and all other files |
| Ext3Paths.CreateKeeps | src/fs/ext3.rs:454-503 | a successful creation keeps the file system well-formed, named inodes marked used included, and leaves strictly fewer free inodes; the new inode was not marked used, is empty, the parent has grown by its record, and every other file is as before |
| Ext3Creation.GrownListing | src/fs/ext3.rs:347-396 | a record added to a directory is listed exactly when the records fill its data, and they do so again exactly when they did |
| Ext3Creation.CreatedIsFoundExactly | src/fs/ext3.rs:454-503 | after a successful creation the path leads to the new, empty inode if and only if the parent ended without an unused record and the name is not `.` or `..`; otherwise it is not found |
| Ext3Creation.WriteSucceedsExactly | src/fs/ext3.rs:506-525 | for a path that is not found, `write_file` succeeds if and only if the creation succeeds, can be found again, and the write into the new file succeeds; then that is all it does |
| Ext3LostFile.LosesFile | src/fs/ext3.rs:454-525 | on a small well-formed disk whose root directory holds an unused record, `//a` is created and then not found, and `write_file` on it fails for all data |
| Ext3Volume.Volume.BitmapAllocate | src/fs/ext3.rs:224-242 | the lowest clear bit is set and returned, or nothing changes |
| Ext3Volume.Volume.BitmapAssign | src/fs/ext3.rs:210-221 | one bit is changed |
| Ext3Volume.Volume.PutInode | src/fs/ext3.rs:273-293 | one slot is rewritten |
| Ext3Volume.Volume.WriteFileData | src/fs/ext3.rs:296-344 | the three loops compute the specified disk, inode and error |
| Ext3Volume.Volume.ReadFileInode | src/fs/ext3.rs:626-647 | the loop concatenates the blocks, holes as zeros |
| Ext3Volume.Volume.ReadDirInode | src/fs/ext3.rs:650-677 | the loop ends on every data and lists the visible records |
| Ext3Volume.Volume.DirAddEntry | src/fs/ext3.rs:347-396 | the walk ends on every data; result as specified |
| Ext3Volume.Volume.DirRemoveEntry | src/fs/ext3.rs:399-451 | both walks end on every data; result as specified |
| Ext3Volume.Volume.WalkPath | src/fs/ext3.rs:680-716 | the component loop computes the lookup |
| Ext3Volume.Volume.Create | src/fs/ext3.rs:454-503 | creation with its checks and error paths |
| Ext3Volume.Volume.WriteFile | src/fs/ext3.rs:506-525 | on a well-formed file system the retry recursion ends, with disk and error as specified |
| Ext3Volume.WriteOutcomeReads | src/fs/ext3.rs:506-525 | when it succeeds, however many creations it took, reading the path gives the data |
| Ext3Paths.CreationConsumes | src/fs/ext3.rs:454-503 | a successful creation leaves a well-formed file system with fewer free inodes, so the retries end |
| Ext3Volume.FollowAfterWrite | src/fs/ext3.rs:689-712 | rewriting a file leaves every path to it in place |

## Left out

- Port and disk I/O, the network card, PCI, VGA, framebuffer, mouse, clock and serial code: hardware. The disk is a map from block numbers to blocks, other block numbers give the disk error; packets sent are a ghost list.
- Shell commands, the editor, the history, the RAM file system, and Ethernet, UDP and ARP framing: not part of this model. They format text or copy fields between fixed offsets, and no modelled property depends on them.
- `dump_stats`: printing only; the counters it prints are modelled.
- Rejection of malformed arithmetic: an unmatched `)` and postfix order are accepted by the code; `Calc.ToPostfixConserves` says what any accepted input gives. The integer parser of the standard library is modelled by its meaning.
- Scheduler.Kernel.Irq0: models the timer call by an arbitrary change of memory below the frame, because the handler itself only counts and writes to ports; the reserved bit 1 of RFLAGS and the task table's printing are not modelled.
- Scheduler: stacks are taken to be aligned and disjoint, as the debug assertion and the static table provide; tasks write only their own registers and stack.
- HeapModel.AllocKeeps: asks for a request that a bucket serves or whose size is its bucket's and a multiple of 16. `HeapLimits.AllocKeepsExactly` says exactly which other requests keep the invariant; for a fallback of another size `used` goes wrong even when no bytes overlap (`HeapLimits.FallbackUsesExactly`).
- HeapRuns.CarvedInv: heaps below 1046528 bytes are not modelled: `init` then leaves the later buckets without a block size, and what is released to them is never handed out again. The kernel's heap has 2 MiB (src/memory/mod.rs:9).
- HeapAllocator.BucketAllocator.Init: asks for a heap with room for all nine buckets, for the same reason.
- HeapAllocator.BucketAllocator.Alloc: asks for a request that HeapModel.AllocKeeps covers. Any other one leaves lists that stand for no heap satisfying the invariant, unless it fails or takes the last bytes of its region (`HeapLimits.AllocKeepsExactly`).
- HeapAllocator.BucketAllocator.AllocLarge: asks for room for the header of what is left (`HeapAllocator.RoomInside`): without it the code overwrites its own pointer (`HeapAllocator.CutAtStartExactly`).
- HeapAllocator.CutAtStartExactly: is about sizes that are multiples of 8, because memory is modelled in words.
- HeapLimits.HeadersFitExactly: is about the first two calls on a fresh heap; `HeapLimits.AllocKeepsExactly` is the condition for one call in any state.
- The two words of a region header are taken to be the size and then the pointer, the order in which the source declares them.
- Double release of a bucket block: the code does not detect it; the large list's double release is modelled as it is.
- Keyboard: loads and stores are sequentially consistent steps; weaker memory orders are not modelled. `read_line` is not modelled; the status and data ports are parameters of the handler.
- TcpRuns.ReaderSeesStream: is stated while the connection is established and for segments without FIN, because FINs are not sequence-checked; overflow of the 4096-byte buffer is covered by the condition.
- TCP: the choice among the four table slots, `status` and `list`, sender stream correctness and completion of the handshake with a peer (`send_segment` advances the sequence number before it builds the header) are not modelled; the configuration is fixed, and one call reads the clock once.
- Frames: freeing a frame that the caller does not hold is outside the ownership theorem; `map_1gb_page` is not modelled.
- Dhcp: the transaction over UDP with its timeout is not modelled.
- Ext3: blocks of 1024 bytes; `delete_file` is not modelled; indirect blocks are read as in the code, but the ownership theorems ask that no inode uses them. Byte strings stand for names; invalid UTF-8 is not modelled. Arithmetic on block numbers is unbounded.
- Ext3Files.WriteIsPrivate: says that the disk stays well-formed only for writes that do not shrink the file, because `free_block` unmarks the wrong block; `Ext3Shrinks.WriteKeepsExactly` gives the exact condition for all writes that succeed.
- Ext3Writes.FilesRemember: is about runs of writes that do not shrink a file, for the same reason (`Ext3Sharing.ShrinkingSharesBlocks`).
- Compatibility with real disk images: the packed inode of the source has 116 bytes; only the consistency of its slots is proved.
