/** The register contents of a task, and the frame that holds them on a stack. */
module Cpu {
  import opened RawMemory

  const RAX: nat := 0
  const RBX: nat := 1
  const RCX: nat := 2
  const RDX: nat := 3
  const RBP: nat := 4
  const RSI: nat := 5
  const RDI: nat := 6
  const R8: nat := 7
  const R9: nat := 8
  const R10: nat := 9
  const R11: nat := 10
  const R12: nat := 11
  const R13: nat := 12
  const R14: nat := 13
  const R15: nat := 14

  type Gprs = g: seq<Word> | |g| == 15 witness seq(15, i => 0)

  datatype Context = Context(gpr: Gprs, rip: Word, cs: Word, rflags: Word, rsp: Word, ss: Word)

  const FRAME_WORDS: nat := 20
  const FRAME_BYTES: nat := 160

  /** What an interrupted task leaves on its stack, lowest address first. */
  function FrameOf(c: Context): (f: seq<Word>)
    ensures |f| == FRAME_WORDS
  {
    c.gpr + [c.rip, c.cs, c.rflags, c.rsp, c.ss]
  }

  function ContextOf(f: seq<Word>): Context
    requires |f| == FRAME_WORDS
  {
    Context(f[..15], f[15], f[16], f[17], f[18], f[19])
  }

  /** Every context is that of its frame. */
  lemma FrameRoundTrip(c: Context)
    ensures ContextOf(FrameOf(c)) == c
  {
    assert FrameOf(c)[..15] == c.gpr;
  }

  /** And every twenty words are the frame of their context. */
  lemma ContextRoundTrip(f: seq<Word>)
    requires |f| == FRAME_WORDS
    ensures FrameOf(ContextOf(f)) == f
  {
    assert f[15..] == [f[15], f[16], f[17], f[18], f[19]];
    assert f == f[..15] + f[15..];
  }

  /** Store `ws` from address `a` upward. */
  function WriteWords(mem: Memory, a: int, ws: seq<Word>): Memory
    decreases |ws|
  {
    if ws == [] then mem else WriteWords(mem, a + 8, ws[1..])[a := ws[0]]
  }

  function ReadWords(mem: Memory, a: int, n: nat): (ws: seq<Word>)
    ensures |ws| == n && forall i :: 0 <= i < n ==> ws[i] == Load(mem, a + 8 * i)
  {
    seq(n, i requires 0 <= i < n => Load(mem, a + 8 * i))
  }

  lemma {:induction false} WriteWordsFrame(mem: Memory, a: int, ws: seq<Word>)
    ensures forall x {:trigger Load(mem, x)} {:trigger Load(WriteWords(mem, a, ws), x)} ::
      x < a || x + 8 > a + 8 * |ws| ==> Load(WriteWords(mem, a, ws), x) == Load(mem, x)
    decreases |ws|
  {
    if ws != [] {
      WriteWordsFrame(mem, a + 8, ws[1..]);
    }
  }

  lemma {:induction false} ReadBack(mem: Memory, a: int, ws: seq<Word>)
    ensures ReadWords(WriteWords(mem, a, ws), a, |ws|) == ws
    decreases |ws|
  {
    if ws != [] {
      var rest := WriteWords(mem, a + 8, ws[1..]);
      ReadBack(mem, a + 8, ws[1..]);
      forall i | 0 < i < |ws| ensures Load(rest[a := ws[0]], a + 8 * i) == ws[i] {
        assert Load(rest, a + 8 + 8 * (i - 1)) == ReadWords(rest, a + 8, |ws| - 1)[i - 1];
      }
    }
  }

  /** Reading depends only on the words read. */
  lemma ReadSame(m: Memory, m': Memory, a: int, n: nat)
    requires forall x :: a <= x && x + 8 <= a + 8 * n ==> Load(m', x) == Load(m, x)
    ensures ReadWords(m', a, n) == ReadWords(m, a, n)
  {
  }
}

/** The round-robin scheduler and the timer interrupt that switches tasks on raw stacks. */
module Scheduler {
  import opened Basics
  import opened RawMemory
  import opened Cpu

  const MAX_TASKS: nat := 8
  const STACK_SIZE: nat := 32768

  datatype TaskState = Free | Ready | Running

  datatype Task = Task(rsp: Word, state: TaskState)

  /** Where the stacks are: slot 0 is the boot stack, the others lie in the task table. */
  datatype Layout = Layout(lo: seq<nat>, hi: seq<nat>) {
    ghost predicate Valid() {
      && |lo| == |hi| == MAX_TASKS
      && (forall i :: 0 <= i < MAX_TASKS ==> lo[i] + FRAME_BYTES + 16 <= hi[i] < 0x1_0000_0000_0000_0000)
      && (forall i :: 1 <= i < MAX_TASKS ==> hi[i] == lo[i] + STACK_SIZE && hi[i] % 16 == 0)
      && (forall i, j :: 0 <= i < MAX_TASKS && 0 <= j < MAX_TASKS && i != j ==> hi[i] <= lo[j] || hi[j] <= lo[i])
    }

    predicate Owns(i: nat, a: int)
      requires i < |lo| == |hi|
    {
      lo[i] <= a && a + 8 <= hi[i]
    }
  }

  datatype State = State(cpu: Context, mem: Memory, tasks: seq<Task>, current: nat) {
    ghost predicate Valid() {
      |tasks| == MAX_TASKS && current < MAX_TASKS
    }
  }

  // ---- spawn ----

  function FirstFree(tasks: seq<Task>, i: nat): (r: Option<nat>)
    requires i <= |tasks|
    ensures r.Some? ==> i <= r.value < |tasks| && tasks[r.value].state == Free
    decreases |tasks| - i
  {
    if i == |tasks| then None else if tasks[i].state == Free then Some(i) else FirstFree(tasks, i + 1)
  }

  /** The registers a new task starts with. */
  function InitialContext(entry: Word, top: nat): Context
    requires 8 <= top < 0x1_0000_0000_0000_0000
  {
    Context(seq(15, i => 0), entry, 0x08, 0x200, top - 8, 0x10)
  }

  function Spawned(l: Layout, s: State, entry: Word): (State, int)
    requires l.Valid() && s.Valid()
  {
    var slot := FirstFree(s.tasks, 1);
    if slot.None? then (s, -1)
    else
      var i: int := slot.value;
      var base := l.hi[i] - FRAME_BYTES;
      (s.(mem := WriteWords(s.mem, base, FrameOf(InitialContext(entry, l.hi[i]))),
          tasks := s.tasks[i := Task(base, Ready)]), i)
  }

  // ---- schedule ----

  function FindReady(tasks: seq<Task>, next: nat, tried: nat): (r: Option<nat>)
    requires |tasks| == MAX_TASKS && next < MAX_TASKS && tried <= MAX_TASKS
    ensures r.Some? ==> r.value < MAX_TASKS && tasks[r.value].state == Ready
    decreases MAX_TASKS - tried
  {
    if tried == MAX_TASKS then None
    else if tasks[next].state == Ready then Some(next)
    else FindReady(tasks, (next + 1) % MAX_TASKS, tried + 1)
  }

  /** The table once the interrupted task is saved. */
  function Saved(tasks: seq<Task>, cur: nat, rsp: Word): seq<Task>
    requires cur < |tasks|
  {
    tasks[cur := Task(rsp, if tasks[cur].state == Running then Ready else tasks[cur].state)]
  }

  function Scheduled(tasks: seq<Task>, cur: nat, rsp: Word): (seq<Task>, nat, Word)
    requires |tasks| == MAX_TASKS && cur < MAX_TASKS
  {
    var saved := Saved(tasks, cur, rsp);
    match FindReady(saved, (cur + 1) % MAX_TASKS, 0)
    case Some(next) => (saved[next := saved[next].(state := Running)], next, saved[next].rsp)
    case None => (saved[cur := saved[cur].(state := Running)], cur, rsp)
  }

  // ---- the timer interrupt ----

  /** Where the interrupted task's frame starts: the CPU aligns RSP down to 16 before pushing. */
  function FrameBase(rsp: Word): int {
    rsp - rsp % 16 - FRAME_BYTES
  }

  /** The handler's own use of the interrupted stack: any words below the saved frame. */
  function Scribbled(mem: Memory, junk: Memory, lo: int, hi: int): Memory {
    mem + map a | a in junk && lo <= a && a + 8 <= hi :: junk[a]
  }

  predicate CanTick(l: Layout, s: State)
    requires |l.lo| == |l.hi| == MAX_TASKS && s.current < MAX_TASKS
  {
    l.lo[s.current] + FRAME_BYTES + 16 <= s.cpu.rsp <= l.hi[s.current]
  }

  function Ticked(l: Layout, s: State, junk: Memory): State
    requires l.Valid() && s.Valid() && CanTick(l, s)
  {
    var base := FrameBase(s.cpu.rsp);
    var mem := Scribbled(WriteWords(s.mem, base, FrameOf(s.cpu)), junk, l.lo[s.current], base);
    var r := Scheduled(s.tasks, s.current, base);
    State(ContextOf(ReadWords(mem, r.2, FRAME_WORDS)), mem, r.0, r.1)
  }

  lemma NothingWritten(mem: Memory, a: int)
    ensures WriteWords(mem, a, []) == mem
  {
  }

  // ---- The code itself ----

  /** The CPU, its memory and the scheduler's table. */
  class Kernel {
    const layout: Layout
    var mem: Memory
    var gpr: Gprs
    var rip: Word
    var cs: Word
    var rflags: Word
    var rsp: Word
    var ss: Word
    const tasks: array<Task>
    var current: nat

    ghost predicate Valid()
      reads this, tasks
    {
      layout.Valid() && tasks.Length == MAX_TASKS && current < MAX_TASKS
    }

    ghost function View(): State
      reads this, tasks
    {
      State(Context(gpr, rip, cs, rflags, rsp, ss), mem, tasks[..], current)
    }

    method Init()
      requires Valid()
      modifies tasks
      ensures Valid() && View() == old(View()).(tasks := old(tasks[..])[0 := old(tasks[0]).(state := Ready)])
      ensures old(current == 0 && forall i :: 0 <= i < MAX_TASKS ==> tasks[i] == Task(0, Free)) ==> Booted(View())
    {
      tasks[0] := tasks[0].(state := Ready);
    }

    /** `spawn`: fill in the first free slot's stack so that the timer's return path starts `entry`. */
    method Spawn(entry: Word) returns (result: int)
      requires Valid()
      modifies this`mem, tasks
      ensures Valid() && (View(), result) == Spawned(layout, old(View()), entry)
    {
      var i := 1;
      while i < MAX_TASKS
        invariant 1 <= i <= MAX_TASKS && mem == old(mem) && tasks[..] == old(tasks[..])
        invariant FirstFree(tasks[..], 1) == FirstFree(tasks[..], i)
      {
        if tasks[i].state == Free {
          var top := layout.hi[i];
          ghost var frame := FrameOf(InitialContext(entry, top));
          StartFrame(top, entry);
          tasks[i] := Task(top - FRAME_BYTES, Ready);
          return i;
        }
        i := i + 1;
      }
      return -1;
    }

    /** `sp.offset(-k).write(w)`, once the words above are in place. */
    method Put(top: nat, k: nat, w: Word, ghost start: Memory, ghost frame: seq<Word>)
      requires 1 <= k <= FRAME_WORDS == |frame| && frame[FRAME_WORDS - k] == w
      requires mem == WriteWords(start, top - 8 * (k - 1), frame[FRAME_WORDS - k + 1..])
      modifies this`mem
      ensures mem == WriteWords(start, top - 8 * k, frame[FRAME_WORDS - k..])
    {
      mem := mem[top - 8 * k := w];
      assert frame[FRAME_WORDS - k..][1..] == frame[FRAME_WORDS - k + 1..];
    }

    /** The twenty stores of `spawn`, from the top of the stack down. */
    method StartFrame(top: nat, entry: Word)
      requires FRAME_BYTES <= top < 0x1_0000_0000_0000_0000
      modifies this`mem
      ensures mem == WriteWords(old(mem), top - FRAME_BYTES, FrameOf(InitialContext(entry, top)))
    {
      ghost var m, f := mem, FrameOf(InitialContext(entry, top));
      assert f[20..] == [];
      Put(top, 1, 0x10, m, f);
      Put(top, 2, top - 8, m, f);
      Put(top, 3, 0x200, m, f);
      Put(top, 4, 0x08, m, f);
      Put(top, 5, entry, m, f);
      StartRegisters(top, m, f);
      assert f[0..] == f;
    }

    method StartRegisters(top: nat, ghost m: Memory, ghost f: seq<Word>)
      requires |f| == FRAME_WORDS && forall k :: 0 <= k < 15 ==> f[k] == 0
      requires mem == WriteWords(m, top - 40, f[15..])
      modifies this`mem
      ensures mem == WriteWords(m, top - FRAME_BYTES, f[0..])
    {
      Put(top, 6, 0, m, f);
      Put(top, 7, 0, m, f);
      Put(top, 8, 0, m, f);
      Put(top, 9, 0, m, f);
      Put(top, 10, 0, m, f);
      Put(top, 11, 0, m, f);
      Put(top, 12, 0, m, f);
      Put(top, 13, 0, m, f);
      Put(top, 14, 0, m, f);
      Put(top, 15, 0, m, f);
      Put(top, 16, 0, m, f);
      Put(top, 17, 0, m, f);
      Put(top, 18, 0, m, f);
      Put(top, 19, 0, m, f);
      Put(top, 20, 0, m, f);
    }

    /** `schedule`: save the interrupted task, find the next ready one in circular order. */
    method Schedule(current_rsp: Word) returns (next_rsp: Word)
      requires Valid()
      modifies this`current, tasks
      ensures Valid() && (tasks[..], current, next_rsp) == Scheduled(old(tasks[..]), old(current), current_rsp)
    {
      var cur := current;
      tasks[cur] := tasks[cur].(rsp := current_rsp);
      if tasks[cur].state == Running {
        tasks[cur] := tasks[cur].(state := Ready);
      }
      ghost var saved := Saved(old(tasks[..]), cur, current_rsp);
      assert tasks[..] == saved;
      var next := (cur + 1) % MAX_TASKS;
      var tried := 0;
      while tried < MAX_TASKS
        invariant 0 <= tried <= MAX_TASKS && 0 <= next < MAX_TASKS
        invariant tasks[..] == saved && current == cur
        invariant FindReady(saved, (cur + 1) % MAX_TASKS, 0) == FindReady(saved, next, tried)
      {
        if tasks[next].state == Ready {
          tasks[next] := tasks[next].(state := Running);
          current := next;
          return tasks[next].rsp;
        }
        next := (next + 1) % MAX_TASKS;
        tried := tried + 1;
      }
      tasks[cur] := tasks[cur].(state := Running);
      return current_rsp;
    }

    /** `push`; `below` are the words pushed so far, from `rsp` up, onto `start`. */
    method Push(w: Word, ghost start: Memory, ghost below: seq<Word>) returns (ghost pushed: seq<Word>)
      requires rsp >= 8 && mem == WriteWords(start, rsp, below)
      modifies this`rsp, this`mem
      ensures pushed == [w] + below && rsp == old(rsp) - 8 && mem == WriteWords(start, rsp, pushed)
    {
      rsp := rsp - 8;
      mem := mem[rsp := w];
      pushed := [w] + below;
      assert pushed[1..] == below;
    }

    method Pop() returns (w: Word)
      requires rsp + 8 < 0x1_0000_0000_0000_0000
      modifies this`rsp
      ensures rsp == old(rsp) + 8 && w == Load(mem, old(rsp))
    {
      w := Load(mem, rsp);
      rsp := rsp + 8;
    }

    /** What the CPU does on an interrupt: align the stack and push SS, RSP, RFLAGS, CS, RIP. */
    method EnterInterrupt() returns (ghost pushed: seq<Word>)
      requires rsp >= FRAME_BYTES + 16
      modifies this`rsp, this`mem
      ensures pushed == [rip, cs, rflags, old(rsp), ss]
      ensures rsp == old(rsp) - old(rsp) % 16 - 40 && mem == WriteWords(old(mem), rsp, pushed)
    {
      var interrupted := rsp;
      rsp := rsp - rsp % 16;
      pushed := PushReturn(interrupted);
    }

    method PushReturn(interrupted: Word) returns (ghost pushed: seq<Word>)
      requires rsp >= 40
      modifies this`rsp, this`mem
      ensures pushed == [rip, cs, rflags, interrupted, ss]
      ensures rsp == old(rsp) - 40 && mem == WriteWords(old(mem), rsp, pushed)
    {
      hide WriteWords;
      ghost var start := mem;
      NothingWritten(mem, rsp);
      pushed := Push(ss, start, []);
      pushed := Push(interrupted, start, pushed);
      pushed := Push(rflags, start, pushed);
      pushed := Push(cs, start, pushed);
      pushed := Push(rip, start, pushed);
    }

    /** `push` of one general register, once those above it in the frame are pushed. */
    method PushReg(r: nat, ghost start: Memory, ghost above: seq<Word>)
      requires r < 15 && rsp >= 8 && mem == WriteWords(start, rsp, gpr[r + 1..] + above)
      modifies this`rsp, this`mem
      ensures rsp == old(rsp) - 8 && mem == WriteWords(start, rsp, gpr[r..] + above)
    {
      ghost var pushed := Push(gpr[r], start, gpr[r + 1..] + above);
      assert pushed == gpr[r..] + above;
    }

    method PushHigh(ghost start: Memory, ghost above: seq<Word>)
      requires rsp >= 64 && mem == WriteWords(start, rsp, above)
      modifies this`rsp, this`mem
      ensures rsp == old(rsp) - 64 && mem == WriteWords(start, rsp, gpr[R8..] + above)
    {
      assert gpr[15..] + above == above;
      PushReg(R15, start, above);
      PushReg(R14, start, above);
      PushReg(R13, start, above);
      PushReg(R12, start, above);
      PushReg(R11, start, above);
      PushReg(R10, start, above);
      PushReg(R9, start, above);
      PushReg(R8, start, above);
    }

    method PushAll(ghost start: Memory, ghost above: seq<Word>)
      requires rsp >= 120 && mem == WriteWords(start, rsp, above)
      modifies this`rsp, this`mem
      ensures rsp == old(rsp) - 120 && mem == WriteWords(start, rsp, gpr + above)
    {
      PushHigh(start, above);
      PushReg(RDI, start, above);
      PushReg(RSI, start, above);
      PushReg(RBP, start, above);
      PushReg(RDX, start, above);
      PushReg(RCX, start, above);
      PushReg(RBX, start, above);
      PushReg(RAX, start, above);
      assert gpr[0..] == gpr;
    }

    /** `pop` of one general register, once those below it in the frame are popped. */
    method PopReg(r: nat, ghost from: Word)
      requires r < 15 && rsp == from + 8 * r && from + 120 < 0x1_0000_0000_0000_0000
      requires gpr[..r] == ReadWords(mem, from, r)
      modifies this`rsp, this`gpr
      ensures rsp == from + 8 * (r + 1) && gpr[..r + 1] == ReadWords(mem, from, r + 1)
    {
      var w := Pop();
      gpr := gpr[r := w];
    }

    method PopAll()
      requires rsp + 120 < 0x1_0000_0000_0000_0000
      modifies this`rsp, this`gpr
      ensures rsp == old(rsp) + 120 && gpr == ReadWords(mem, old(rsp), 15)
    {
      ghost var from := rsp;
      PopReg(RAX, from);
      PopReg(RBX, from);
      PopReg(RCX, from);
      PopReg(RDX, from);
      PopReg(RBP, from);
      PopReg(RSI, from);
      PopReg(RDI, from);
      PopReg(R8, from);
      PopReg(R9, from);
      PopReg(R10, from);
      PopReg(R11, from);
      PopReg(R12, from);
      PopReg(R13, from);
      PopReg(R14, from);
      PopReg(R15, from);
      assert gpr[..15] == gpr;
    }

    /** `iretq`: all five words come off the stack together. */
    method Iretq()
      modifies this`rip, this`cs, this`rflags, this`rsp, this`ss
      requires rsp + 40 < 0x1_0000_0000_0000_0000
      ensures [rip, cs, rflags, rsp, ss] == ReadWords(mem, old(rsp), 5)
    {
      var stack := rsp;
      rip, cs, rflags, ss := Load(mem, stack), Load(mem, stack + 8), Load(mem, stack + 16), Load(mem, stack + 32);
      rsp := Load(mem, stack + 24);
    }

    /** The timer interrupt from the interrupted instruction to the resumed one. */
    method Irq0(junk: Memory)
      requires Valid() && CanTick(layout, View())
      requires forall i :: 0 <= i < MAX_TASKS && tasks[i].state == Ready ==> tasks[i].rsp + FRAME_BYTES <= layout.hi[i]
      modifies this, tasks
      ensures Valid() && View() == Ticked(layout, old(View()), junk)
    {
      ghost var before := View();
      ghost var base := FrameBase(rsp);
      SaveFrame();
      // call timer_handler: it runs below the saved frame and returns the stack to resume
      mem := Scribbled(mem, junk, layout.lo[current], rsp);
      rsp := Schedule(rsp);
      ghost var r := Scheduled(before.tasks, before.current, base);
      assert rsp == base || rsp + FRAME_BYTES <= layout.hi[current];
      RestoreFrame();
    }

    method SaveFrame()
      requires rsp >= FRAME_BYTES + 16
      modifies this`rsp, this`mem
      ensures rsp == FrameBase(old(rsp)) && mem == WriteWords(old(mem), rsp, FrameOf(old(View()).cpu))
    {
      ghost var start, cpu := mem, View().cpu;
      ghost var pushed := EnterInterrupt();
      PushAll(start, pushed);
      assert gpr + pushed == FrameOf(cpu);
    }

    method RestoreFrame()
      requires rsp + FRAME_BYTES < 0x1_0000_0000_0000_0000
      modifies this`rip, this`cs, this`rflags, this`rsp, this`ss, this`gpr
      ensures View().cpu == ContextOf(ReadWords(mem, old(rsp), FRAME_WORDS))
    {
      ghost var from := rsp;
      ghost var frame := ReadWords(mem, from, FRAME_WORDS);
      PopAll();
      assert gpr == frame[..15];
      Iretq();
      assert [rip, cs, rflags, rsp, ss] == frame[15..];
      assert rip == frame[15..][0] && cs == frame[15..][1] && rflags == frame[15..][2] && rsp == frame[15..][3]
        && ss == frame[15..][4];
    }
  }

  // ---- Runs: task execution, timer ticks and spawns in any order ----

  datatype Event = Runs | Tick(junk: Memory) | Spawn(entry: Word)

  /** `Runs` is any computation of the current task: any registers, and its own stack only. */
  ghost predicate Step(l: Layout, s: State, e: Event, s': State)
    requires l.Valid() && s.Valid()
  {
    match e
    case Runs =>
      && s'.tasks == s.tasks && s'.current == s.current
      && forall x {:trigger Load(s.mem, x)} {:trigger Load(s'.mem, x)} :: !l.Owns(s.current, x) ==>
        Load(s'.mem, x) == Load(s.mem, x)
    case Tick(junk) => CanTick(l, s) && s' == Ticked(l, s, junk)
    case Spawn(entry) => s' == Spawned(l, s, entry).0
  }

  /** After `init`: slot 0 is ready and current, every other slot is free. */
  ghost predicate Booted(s: State) {
    && s.Valid() && s.current == 0
    && s.tasks[0] == Task(0, Ready)
    && forall i :: 1 <= i < MAX_TASKS ==> s.tasks[i] == Task(0, Free)
  }

  ghost predicate StepAt(l: Layout, trace: seq<State>, events: seq<Event>, i: nat)
    requires l.Valid() && |trace| == |events| + 1 && i < |events| && trace[i].Valid()
  {
    Step(l, trace[i], events[i], trace[i + 1])
  }

  ghost predicate IsRun(l: Layout, trace: seq<State>, events: seq<Event>) {
    && l.Valid()
    && |trace| == |events| + 1
    && Booted(trace[0])
    && (forall i :: 0 <= i < |trace| ==> trace[i].Valid())
    && forall i :: 0 <= i < |events| ==> StepAt(l, trace, events, i)
  }

  /** Before the first tick no task is marked running; afterwards exactly the current one is. */
  ghost predicate OneRunning(s: State)
    requires s.Valid()
  {
    || (s.current == 0 && s.tasks[0].state == Ready && forall i :: 0 <= i < MAX_TASKS ==> s.tasks[i].state != Running)
    || forall i :: 0 <= i < MAX_TASKS ==> (s.tasks[i].state == Running <==> i == s.current)
  }

  ghost predicate Good(l: Layout, s: State)
    requires l.Valid() && s.Valid()
  {
    && OneRunning(s)
    && forall i :: 0 <= i < MAX_TASKS && s.tasks[i].state == Ready ==>
      && s.tasks[i].rsp + FRAME_BYTES <= l.hi[i]
      && (i != s.current ==> l.lo[i] <= s.tasks[i].rsp)
  }

  // ---- The search of `schedule` ----

  /** Steps around the table from just after `from` to `to`, from 1 to 8. */
  function Distance(from: nat, to: nat): nat
    requires from < MAX_TASKS && to < MAX_TASKS
  {
    if to > from then to - from else to + MAX_TASKS - from
  }

  /** The search finds the nearest ready slot. */
  lemma {:induction false} FindReadyNearest(tasks: seq<Task>, cur: nat, next: nat, tried: nat, j: nat)
    requires |tasks| == MAX_TASKS && cur < MAX_TASKS && next < MAX_TASKS && j < MAX_TASKS
    requires Distance(cur, next) == tried + 1 <= Distance(cur, j)
    requires tasks[j].state == Ready
    ensures var r := FindReady(tasks, next, tried); r.Some? && tried < Distance(cur, r.value) <= Distance(cur, j)
    decreases MAX_TASKS - tried
  {
    if tasks[next].state != Ready {
      FindReadyNearest(tasks, cur, (next + 1) % MAX_TASKS, tried + 1, j);
    }
  }

  /** The interrupted task is itself ready once saved, so the search never fails: the code after the
      loop of `schedule` is unreachable in every run. */
  lemma SearchSucceeds(l: Layout, s: State, rsp: Word)
    requires l.Valid() && s.Valid() && Good(l, s)
    ensures FindReady(Saved(s.tasks, s.current, rsp), (s.current + 1) % MAX_TASKS, 0).Some?
  {
    FindReadyNearest(Saved(s.tasks, s.current, rsp), s.current, (s.current + 1) % MAX_TASKS, 0, s.current);
  }

  // ---- What a tick, a spawn and a computation do, as far as the other tasks can tell ----

  ghost predicate SameOutside(l: Layout, m: Memory, m': Memory, i: nat, from: int)
    requires l.Valid() && i < MAX_TASKS
  {
    forall x {:trigger Load(m, x)} {:trigger Load(m', x)} :: !l.Owns(i, x) || from <= x ==> Load(m', x) == Load(m, x)
  }

  /** The interrupted task is saved and the nearest ready one, counting around the table, is marked running. */
  ghost predicate TableSwitch(tasks: seq<Task>, cur: nat, base: Word, tasks': seq<Task>, cur': nat)
    requires |tasks| == MAX_TASKS && cur < MAX_TASKS
  {
    var saved := Saved(tasks, cur, base);
    && cur' < MAX_TASKS
    && saved[cur'].state == Ready
    && tasks' == saved[cur' := saved[cur'].(state := Running)]
    && forall j :: 0 <= j < MAX_TASKS && saved[j].state == Ready ==> Distance(cur, cur') <= Distance(cur, j)
  }

  ghost predicate TableSpawn(l: Layout, tasks: seq<Task>, tasks': seq<Task>, i: int)
    requires l.Valid() && |tasks| == MAX_TASKS
  {
    1 <= i < MAX_TASKS && tasks[i].state == Free && tasks' == tasks[i := Task(l.hi[i] - FRAME_BYTES, Ready)]
  }

  ghost predicate TableEffect(l: Layout, s: State, e: Event, s': State)
    requires l.Valid() && s.Valid() && s'.Valid()
  {
    match e
    case Runs => s'.tasks == s.tasks && s'.current == s.current
    case Tick(_) =>
      CanTick(l, s) && TableSwitch(s.tasks, s.current, FrameBase(s.cpu.rsp), s'.tasks, s'.current)
    case Spawn(entry) =>
      s'.current == s.current && (s'.tasks == s.tasks || exists i :: TableSpawn(l, s.tasks, s'.tasks, i))
  }

  /** Where the resumed task's frame is. */
  function ResumedAt(s: State, next: nat): int
    requires s.Valid() && next < MAX_TASKS
  {
    if next == s.current then FrameBase(s.cpu.rsp) else s.tasks[next].rsp
  }

  /** The interrupted context is readable at the frame base, and the resumed task's frame is loaded. */
  ghost predicate StackSwitch(l: Layout, s: State, s': State)
    requires l.Valid() && s.Valid() && s'.Valid()
  {
    && CanTick(l, s)
    && ReadWords(s'.mem, FrameBase(s.cpu.rsp), FRAME_WORDS) == FrameOf(s.cpu)
    && SameOutside(l, s.mem, s'.mem, s.current, s.cpu.rsp)
    && s'.cpu == ContextOf(ReadWords(s'.mem, ResumedAt(s, s'.current), FRAME_WORDS))
  }

  ghost predicate StackSpawn(l: Layout, s: State, entry: Word, s': State, i: int)
    requires l.Valid()
  {
    && 1 <= i < MAX_TASKS
    && ReadWords(s'.mem, l.hi[i] - FRAME_BYTES, FRAME_WORDS) == FrameOf(InitialContext(entry, l.hi[i]))
    && SameOutside(l, s.mem, s'.mem, i, l.hi[i])
  }

  lemma ScribbledOutside(mem: Memory, junk: Memory, lo: int, hi: int)
    ensures forall x {:trigger Load(Scribbled(mem, junk, lo, hi), x)} :: x < lo || x + 8 > hi ==>
      Load(Scribbled(mem, junk, lo, hi), x) == Load(mem, x)
  {
  }

  /** The memory side of a tick. */
  lemma TickMemory(l: Layout, s: State, junk: Memory, base: Word, mem: Memory)
    requires l.Valid() && s.Valid() && CanTick(l, s) && base == FrameBase(s.cpu.rsp)
    requires mem == Scribbled(WriteWords(s.mem, base, FrameOf(s.cpu)), junk, l.lo[s.current], base)
    ensures l.lo[s.current] <= base && base + FRAME_BYTES <= s.cpu.rsp
    ensures ReadWords(mem, base, FRAME_WORDS) == FrameOf(s.cpu)
    ensures SameOutside(l, s.mem, mem, s.current, s.cpu.rsp)
  {
    var frame := FrameOf(s.cpu);
    var written := WriteWords(s.mem, base, frame);
    WriteWordsFrame(s.mem, base, frame);
    ReadBack(s.mem, base, frame);
    ScribbledOutside(written, junk, l.lo[s.current], base);
    ReadSame(written, mem, base, FRAME_WORDS);
  }

  lemma TickTable(tasks: seq<Task>, cur: nat, base: Word)
    requires |tasks| == MAX_TASKS && cur < MAX_TASKS && tasks[cur].state != Free
    ensures var r := Scheduled(tasks, cur, base);
      TableSwitch(tasks, cur, base, r.0, r.1) && r.2 == Saved(tasks, cur, base)[r.1].rsp
  {
    var saved := Saved(tasks, cur, base);
    FindReadyNearest(saved, cur, (cur + 1) % MAX_TASKS, 0, cur);
    forall j | 0 <= j < MAX_TASKS && saved[j].state == Ready
      ensures Distance(cur, FindReady(saved, (cur + 1) % MAX_TASKS, 0).value) <= Distance(cur, j)
    {
      FindReadyNearest(saved, cur, (cur + 1) % MAX_TASKS, 0, j);
    }
  }

  lemma TickStack(l: Layout, s: State, junk: Memory)
    requires l.Valid() && s.Valid() && CanTick(l, s) && s.tasks[s.current].state != Free
    ensures StackSwitch(l, s, Ticked(l, s, junk))
  {
    var base, s' := FrameBase(s.cpu.rsp), Ticked(l, s, junk);
    TickTable(s.tasks, s.current, base);
    TickMemory(l, s, junk, base, s'.mem);
  }

  lemma SpawnTable(l: Layout, s: State, entry: Word)
    requires l.Valid() && s.Valid()
    ensures var r := Spawned(l, s, entry);
      if r.1 == -1 then r.0 == s
      else r.0.current == s.current && TableSpawn(l, s.tasks, r.0.tasks, r.1) && StackSpawn(l, s, entry, r.0, r.1)
  {
    var slot := FirstFree(s.tasks, 1);
    if slot.Some? {
      var i := slot.value;
      var f := FrameOf(InitialContext(entry, l.hi[i]));
      WriteWordsFrame(s.mem, l.hi[i] - FRAME_BYTES, f);
      ReadBack(s.mem, l.hi[i] - FRAME_BYTES, f);
    }
  }

  lemma StepEffect(l: Layout, s: State, e: Event, s': State)
    requires l.Valid() && s.Valid() && s'.Valid() && Good(l, s) && Step(l, s, e, s')
    ensures TableEffect(l, s, e, s')
  {
    match e
    case Runs =>
    case Tick(junk) => TickTable(s.tasks, s.current, FrameBase(s.cpu.rsp));
    case Spawn(entry) => SpawnTable(l, s, entry);
  }

  // ---- One task is running ----

  lemma TickKeepsGood(l: Layout, s: State, s': State)
    requires l.Valid() && s.Valid() && s'.Valid() && Good(l, s) && CanTick(l, s)
    requires TableSwitch(s.tasks, s.current, FrameBase(s.cpu.rsp), s'.tasks, s'.current)
    ensures Good(l, s') && s'.tasks[s'.current].state == Running
  {
    var base := FrameBase(s.cpu.rsp);
    assert l.lo[s.current] <= base && base + FRAME_BYTES <= l.hi[s.current];
    forall i | 0 <= i < MAX_TASKS && s'.tasks[i].state == Ready
      ensures s'.tasks[i].rsp + FRAME_BYTES <= l.hi[i] && l.lo[i] <= s'.tasks[i].rsp
    {
      assert s'.tasks[i] == Saved(s.tasks, s.current, base)[i];
    }
  }

  lemma SpawnKeepsGood(l: Layout, s: State, s': State, i: int)
    requires l.Valid() && s.Valid() && s'.Valid() && Good(l, s)
    requires TableSpawn(l, s.tasks, s'.tasks, i) && s'.current == s.current
    ensures Good(l, s')
    ensures s.tasks[s.current].state == Running ==> s'.tasks[s'.current].state == Running
  {
  }

  lemma EffectKeepsGood(l: Layout, s: State, e: Event, s': State)
    requires l.Valid() && s.Valid() && s'.Valid() && Good(l, s) && TableEffect(l, s, e, s')
    ensures Good(l, s')
    ensures e.Tick? || s.tasks[s.current].state == Running ==> s'.tasks[s'.current].state == Running
  {
    match e
    case Runs =>
    case Tick(_) => TickKeepsGood(l, s, s');
    case Spawn(_) =>
      if s'.tasks != s.tasks {
        var i :| TableSpawn(l, s.tasks, s'.tasks, i);
        SpawnKeepsGood(l, s, s', i);
      }
  }

  ghost predicate EffectAt(l: Layout, trace: seq<State>, events: seq<Event>, i: nat)
    requires l.Valid() && |trace| == |events| + 1 && i < |events| && trace[i].Valid() && trace[i + 1].Valid()
  {
    TableEffect(l, trace[i], events[i], trace[i + 1])
  }

  /** The run as seen in the task table alone. */
  ghost predicate IsTableRun(l: Layout, trace: seq<State>, events: seq<Event>) {
    && l.Valid()
    && |trace| == |events| + 1
    && (forall i :: 0 <= i < |trace| ==> trace[i].Valid() && Good(l, trace[i]))
    && forall i :: 0 <= i < |events| ==> EffectAt(l, trace, events, i)
  }

  /** In every run, in every state, at most one task is running and it is the current one. */
  lemma {:induction false} RunsAreGood(l: Layout, trace: seq<State>, events: seq<Event>, k: nat)
    requires IsRun(l, trace, events) && k < |trace|
    ensures Good(l, trace[k])
  {
    if k > 0 {
      RunsAreGood(l, trace, events, k - 1);
      assert StepAt(l, trace, events, k - 1);
      var s, e, s' := trace[k - 1], events[k - 1], trace[k];
      StepEffect(l, s, e, s');
      EffectKeepsGood(l, s, e, s');
    }
  }

  lemma RunsAreTableRuns(l: Layout, trace: seq<State>, events: seq<Event>)
    requires IsRun(l, trace, events)
    ensures IsTableRun(l, trace, events)
  {
    forall i | 0 <= i < |trace| ensures Good(l, trace[i]) {
      RunsAreGood(l, trace, events, i);
    }
    forall i | 0 <= i < |events| ensures EffectAt(l, trace, events, i) {
      assert StepAt(l, trace, events, i);
      assert Good(l, trace[i]);
      StepEffect(l, trace[i], events[i], trace[i + 1]);
    }
  }

  lemma {:induction false} RunningSinceTick(l: Layout, trace: seq<State>, events: seq<Event>, k: nat, m: nat)
    requires IsTableRun(l, trace, events) && k < m < |trace| && events[k].Tick?
    ensures trace[m].tasks[trace[m].current].state == Running
    decreases m
  {
    if k < m - 1 {
      RunningSinceTick(l, trace, events, k, m - 1);
    }
    assert EffectAt(l, trace, events, m - 1);
    EffectKeepsGood(l, trace[m - 1], events[m - 1], trace[m]);
  }

  /** From the first tick on, exactly one task is running and it is the current one. */
  lemma ExactlyOneRunning(l: Layout, trace: seq<State>, events: seq<Event>, k: nat, m: nat)
    requires IsRun(l, trace, events) && k < m < |trace| && events[k].Tick?
    ensures forall i :: 0 <= i < MAX_TASKS ==> (trace[m].tasks[i].state == Running <==> i == trace[m].current)
  {
    RunsAreTableRuns(l, trace, events);
    RunningSinceTick(l, trace, events, k, m);
    assert Good(l, trace[m]);
  }

  // ---- Parked tasks ----

  /** Task `j` waits with context `c` saved on its stack; its stack from `c.rsp` up is as in `m`. */
  ghost predicate Parked(l: Layout, s: State, j: nat, c: Context, m: Memory)
    requires l.Valid() && s.Valid() && j < MAX_TASKS
  {
    var rsp := s.tasks[j].rsp;
    && s.current != j && s.tasks[j].state == Ready
    && l.lo[j] <= rsp <= c.rsp && rsp + FRAME_BYTES <= l.hi[j]
    && ReadWords(s.mem, rsp, FRAME_WORDS) == FrameOf(c)
    && SameFrom(l, m, s.mem, j, c.rsp)
  }

  ghost predicate SameFrom(l: Layout, m: Memory, m': Memory, j: nat, from: int)
    requires l.Valid() && j < MAX_TASKS
  {
    forall x {:trigger Load(m', x)} {:trigger Load(m, x)} :: from <= x && x + 8 <= l.hi[j] ==> Load(m', x) == Load(m, x)
  }

  /** What lies in one stack is untouched by changes confined to another. */
  lemma OtherStack(l: Layout, m: Memory, m': Memory, i: nat, from: int, j: nat, rsp: Word)
    requires l.Valid() && i < MAX_TASKS && j < MAX_TASKS && i != j && SameOutside(l, m, m', i, from)
    requires l.lo[j] <= rsp && rsp + FRAME_BYTES <= l.hi[j]
    ensures ReadWords(m', rsp, FRAME_WORDS) == ReadWords(m, rsp, FRAME_WORDS)
    ensures SameFrom(l, m, m', j, rsp)
  {
    ReadSame(m, m', rsp, FRAME_WORDS);
  }

  /** A step by some other task that confines its writes to another stack leaves `j` parked. */
  lemma KeepsParked(l: Layout, s: State, s': State, i: nat, from: int, j: nat, c: Context, m: Memory)
    requires l.Valid() && s.Valid() && s'.Valid() && i < MAX_TASKS && j < MAX_TASKS && i != j
    requires Parked(l, s, j, c, m) && SameOutside(l, s.mem, s'.mem, i, from)
    requires s'.current != j && s'.tasks[j] == s.tasks[j]
    ensures Parked(l, s', j, c, m)
  {
    OtherStack(l, s.mem, s'.mem, i, from, j, s.tasks[j].rsp);
  }

  lemma ParkedWaits(l: Layout, s: State, j: nat, c: Context, m: Memory)
    requires l.Valid() && s.Valid() && j < MAX_TASKS && Parked(l, s, j, c, m)
    ensures s.current != j && s.tasks[j].state == Ready
  {
  }

  lemma CurrentNotFree(l: Layout, s: State)
    requires l.Valid() && s.Valid() && Good(l, s)
    ensures s.tasks[s.current].state != Free
  {
  }

  /** Nothing another task, a tick or a spawn does disturbs a parked task. */
  lemma StaysParked(l: Layout, s: State, e: Event, s': State, j: nat, c: Context, m: Memory)
    requires l.Valid() && s.Valid() && s'.Valid() && j < MAX_TASKS
    requires Good(l, s) && Step(l, s, e, s') && Parked(l, s, j, c, m) && s'.current != j
    ensures Parked(l, s', j, c, m)
  {
    hide Parked, Good, ReadWords, WriteWords, Scheduled, Scribbled, Spawned, Distance;
    ParkedWaits(l, s, j, c, m);
    CurrentNotFree(l, s);
    match e
    case Runs => KeepsParked(l, s, s', s.current, l.hi[s.current], j, c, m);
    case Tick(junk) =>
      TickStack(l, s, junk);
      TickTable(s.tasks, s.current, FrameBase(s.cpu.rsp));
      KeepsParked(l, s, s', s.current, s.cpu.rsp, j, c, m);
    case Spawn(entry) =>
      SpawnTable(l, s, entry);
      var i := Spawned(l, s, entry).1;
      if i != -1 {
        KeepsParked(l, s, s', i, l.hi[i], j, c, m);
      }
  }

  /** A tick that switches away parks the interrupted task. */
  lemma TickParks(l: Layout, s: State, s': State)
    requires l.Valid() && s.Valid() && s'.Valid() && Good(l, s) && StackSwitch(l, s, s')
    requires TableSwitch(s.tasks, s.current, FrameBase(s.cpu.rsp), s'.tasks, s'.current)
    requires s'.current != s.current
    ensures Parked(l, s', s.current, s.cpu, s.mem)
  {
  }

  /** A tick that switches to a parked task resumes exactly the saved context. */
  lemma TickResumes(l: Layout, s: State, s': State, j: nat, c: Context, m: Memory)
    requires l.Valid() && s.Valid() && s'.Valid() && j < MAX_TASKS && StackSwitch(l, s, s')
    requires Parked(l, s, j, c, m) && s'.current == j
    ensures s'.cpu == c && SameFrom(l, m, s'.mem, j, c.rsp)
  {
    OtherStack(l, s.mem, s'.mem, s.current, s.cpu.rsp, j, s.tasks[j].rsp);
    FrameRoundTrip(c);
  }

  lemma {:induction false} ParkedThroughout(l: Layout, trace: seq<State>, events: seq<Event>, k: nat, m: nat, j: nat,
      c: Context, mem: Memory)
    requires IsRun(l, trace, events) && k <= m < |trace| && j < MAX_TASKS
    requires Parked(l, trace[k], j, c, mem)
    requires forall x :: k <= x <= m ==> trace[x].current != j
    ensures Parked(l, trace[m], j, c, mem)
    decreases m
  {
    if k < m {
      ParkedThroughout(l, trace, events, k, m - 1, j, c, mem);
      RunsAreGood(l, trace, events, m - 1);
      assert StepAt(l, trace, events, m - 1);
      StaysParked(l, trace[m - 1], events[m - 1], trace[m], j, c, mem);
    }
  }

  /** The stack side of the tick at step `k` of a run. */
  lemma TickAt(l: Layout, trace: seq<State>, events: seq<Event>, k: nat)
    requires IsRun(l, trace, events) && k < |events| && events[k].Tick?
    ensures Good(l, trace[k]) && StackSwitch(l, trace[k], trace[k + 1])
    ensures TableSwitch(trace[k].tasks, trace[k].current, FrameBase(trace[k].cpu.rsp), trace[k + 1].tasks,
      trace[k + 1].current)
  {
    RunsAreGood(l, trace, events, k);
    var s := trace[k];
    assert StepAt(l, trace, events, k);
    TickStack(l, s, events[k].junk);
    TickTable(s.tasks, s.current, FrameBase(s.cpu.rsp));
  }

  /** The first tick that switches to a task parked at step `k` resumes its saved context. */
  lemma ResumesParked(l: Layout, trace: seq<State>, events: seq<Event>, k: nat, m: nat, j: nat, c: Context, mem: Memory)
    requires IsRun(l, trace, events) && k <= m < |events| && j < MAX_TASKS
    requires Parked(l, trace[k], j, c, mem)
    requires events[m].Tick? && trace[m + 1].current == j
    requires forall x :: k <= x <= m ==> trace[x].current != j
    ensures trace[m + 1].cpu == c && SameFrom(l, mem, trace[m + 1].mem, j, c.rsp)
  {
    ParkedThroughout(l, trace, events, k, m, j, c, mem);
    TickAt(l, trace, events, m);
    TickResumes(l, trace[m], trace[m + 1], j, c, mem);
  }

  /** Context switching is invisible to the task switched. In every run, let a tick at step `k`
      interrupt task `j` and let step `m` be the first tick that resumes it: whatever happens in
      between, all fifteen registers, RIP, CS, RFLAGS, RSP and SS are then what they were, and so is
      `j`'s stack from RSP up. */
  lemma ResumedExactly(l: Layout, trace: seq<State>, events: seq<Event>, k: nat, m: nat, j: nat)
    requires IsRun(l, trace, events) && k <= m < |events| && j < MAX_TASKS
    requires events[k].Tick? && trace[k].current == j
    requires events[m].Tick? && trace[m + 1].current == j
    requires forall x :: k < x <= m ==> trace[x].current != j
    ensures trace[m + 1].cpu == trace[k].cpu
    ensures SameFrom(l, trace[k].mem, trace[m + 1].mem, j, trace[k].cpu.rsp)
  {
    TickAt(l, trace, events, k);
    if k == m {
      FrameRoundTrip(trace[k].cpu);
    } else {
      TickParks(l, trace[k], trace[k + 1]);
      ResumesParked(l, trace, events, k + 1, m, j, trace[k].cpu, trace[k].mem);
    }
  }

  lemma SpawnParks(l: Layout, s: State, entry: Word, j: nat)
    requires l.Valid() && s.Valid() && Good(l, s) && Spawned(l, s, entry).1 == j
    ensures 1 <= j < MAX_TASKS && Spawned(l, s, entry).0.Valid()
    ensures Parked(l, Spawned(l, s, entry).0, j, InitialContext(entry, l.hi[j]), Spawned(l, s, entry).0.mem)
  {
    SpawnTable(l, s, entry);
  }

  /** A spawned task starts as promised. In every run, if step `k` spawns into slot `j`, the first tick
      that resumes `j` lands at the entry with cleared registers, RFLAGS 0x200 and RSP 8 below the top. */
  lemma SpawnedStartsAtEntry(l: Layout, trace: seq<State>, events: seq<Event>, k: nat, m: nat, j: nat)
    requires IsRun(l, trace, events) && k < m < |events|
    requires events[k].Spawn? && Spawned(l, trace[k], events[k].entry).1 == j
    requires events[m].Tick? && trace[m + 1].current == j
    requires forall x :: k < x <= m ==> trace[x].current != j
    ensures 1 <= j < MAX_TASKS && trace[m + 1].cpu == InitialContext(events[k].entry, l.hi[j])
  {
    var entry := events[k].entry;
    RunsAreGood(l, trace, events, k);
    SpawnParks(l, trace[k], entry, j);
    assert StepAt(l, trace, events, k);
    ResumesParked(l, trace, events, k + 1, m, j, InitialContext(entry, l.hi[j]), trace[k + 1].mem);
  }

  // ---- Round robin: every ready task is dispatched soon ----

  function Ticks(events: seq<Event>): nat {
    if events == [] then 0 else Ticks(events[..|events| - 1]) + if events[|events| - 1].Tick? then 1 else 0
  }

  ghost predicate Dispatched(s: State, j: nat)
    requires s.Valid() && j < MAX_TASKS
  {
    s.current == j && s.tasks[j].state == Running
  }

  /** Every step keeps a ready task ready at no greater distance; a tick dispatches it or comes closer. */
  lemma EffectApproaches(l: Layout, s: State, e: Event, s': State, j: nat)
    requires l.Valid() && s.Valid() && s'.Valid() && j < MAX_TASKS
    requires TableEffect(l, s, e, s') && s.tasks[j].state == Ready && !Dispatched(s', j)
    ensures s'.tasks[j].state == Ready
    ensures Distance(s'.current, j) + (if e.Tick? then 1 else 0) <= Distance(s.current, j)
  {
  }

  /** A task not dispatched by step `m` has come closer by one with every tick. */
  lemma {:induction false} WaitsLess(l: Layout, trace: seq<State>, events: seq<Event>, k: nat, m: nat, j: nat)
    requires IsTableRun(l, trace, events) && k <= m < |trace| && j < MAX_TASKS && trace[k].tasks[j].state == Ready
    requires forall x :: k < x <= m ==> !Dispatched(trace[x], j)
    ensures trace[m].tasks[j].state == Ready
    ensures Distance(trace[m].current, j) + Ticks(events[k..m]) <= Distance(trace[k].current, j)
    decreases m
  {
    if k < m {
      WaitsLess(l, trace, events, k, m - 1, j);
      assert EffectAt(l, trace, events, m - 1);
      EffectApproaches(l, trace[m - 1], events[m - 1], trace[m], j);
      assert events[k..m][..m - 1 - k] == events[k..m - 1];
    } else {
      assert events[k..m] == [];
    }
  }

  /** No starvation: in every run, a ready task, be it the current one or not, is running at some point of
      any stretch with as many ticks as its circular distance from the current task. */
  lemma DispatchedInTime(l: Layout, trace: seq<State>, events: seq<Event>, k: nat, m: nat, j: nat)
    requires IsRun(l, trace, events) && k <= m < |trace| && j < MAX_TASKS && trace[k].tasks[j].state == Ready
    requires Ticks(events[k..m]) >= Distance(trace[k].current, j)
    ensures exists x :: k < x <= m && Dispatched(trace[x], j)
  {
    RunsAreTableRuns(l, trace, events);
    if !exists x :: k < x <= m && Dispatched(trace[x], j) {
      WaitsLess(l, trace, events, k, m, j);
    }
  }

  /** In every run, a ready task other than the current one is running at some point
      of any stretch with 7 ticks, whatever is spawned meanwhile. */
  lemma DispatchedWithinSevenTicks(l: Layout, trace: seq<State>, events: seq<Event>, k: nat, m: nat, j: nat)
    requires IsRun(l, trace, events) && k <= m < |trace| && j < MAX_TASKS
    requires trace[k].tasks[j].state == Ready && trace[k].current != j
    requires Ticks(events[k..m]) >= MAX_TASKS - 1
    ensures exists x :: k < x <= m && Dispatched(trace[x], j)
  {
    DispatchedInTime(l, trace, events, k, m, j);
  }
}
