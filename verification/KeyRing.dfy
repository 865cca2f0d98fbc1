/** The lock-free ring between the keyboard interrupt (producer) and the shell (consumer):
    every atomic load and store is a separate step, and the two sides interleave freely. */
module KeyRing {
  import opened Basics
  import opened KeyEvents

  const BUF_SIZE: nat := 64
  const CAPACITY: nat := BUF_SIZE - 1

  /** An encoded event, as the ring stores it. */
  datatype Word = Word(bits: bv32)

  /** The shared atomics. */
  datatype Shared = Shared(buf: seq<Word>, head: nat, tail: nat) {
    ghost predicate Valid() {
      |buf| == BUF_SIZE && head < BUF_SIZE && tail < BUF_SIZE
    }
  }

  /** The program counter of `push`, with its local variables. */
  datatype Producer =
    | Idle
    | LoadedHead(w: Word, h: nat)
    | FoundRoom(w: Word, h: nat)
    | StoredEvent(w: Word, h: nat)

  /** The program counter of `pop` and `clear`, with their local variables. */
  datatype Consumer =
    | Resting
    | LoadedTail(t: nat)
    | FoundEvent(t: nat)
    | LoadedEvent(t: nat, val: Word)
    | ClearLoadedHead(h: nat)

  datatype Ring = Ring(mem: Shared, prod: Producer, cons: Consumer)

  const Initial := Ring(Shared(seq(BUF_SIZE, i => Word(0)), 0, 0), Idle, Resting)

  /** Which side moves. `PushStep` names the word in case a new `push` begins. */
  datatype Action = PushStep(w: Word) | PopStep | ClearStep

  /** What a step means to an observer; `Quiet` steps mean nothing yet. */
  datatype Label =
    | Quiet
    | Accepted(w: Word)
    | Dropped(w: Word)
    | Returned(w: Word)
    | FoundEmpty
    | ClearBegins
    | ClearEnds

  predicate Enabled(s: Ring, a: Action) {
    match a
    case PushStep(_) => true
    case PopStep => !s.cons.ClearLoadedHead?
    case ClearStep => s.cons.Resting? || s.cons.ClearLoadedHead?
  }

  /** One load or store. */
  function Do(s: Ring, a: Action): (Ring, Label)
    requires s.mem.Valid() && InBounds(s) && Enabled(s, a)
  {
    match a
    case PushStep(w) => Push(s, w)
    case PopStep => Pop(s)
    case ClearStep => Clear(s)
  }

  predicate InBounds(s: Ring) {
    && (!s.prod.Idle? ==> s.prod.h < BUF_SIZE)
    && (s.cons.LoadedTail? || s.cons.FoundEvent? || s.cons.LoadedEvent? ==> s.cons.t < BUF_SIZE)
    && (s.cons.ClearLoadedHead? ==> s.cons.h < BUF_SIZE)
  }

  function Push(s: Ring, w: Word): (Ring, Label)
    requires s.mem.Valid() && InBounds(s)
  {
    match s.prod
    case Idle => (s.(prod := LoadedHead(w, s.mem.head)), Quiet)
    case LoadedHead(e, h) =>
      if (h + 1) % BUF_SIZE == s.mem.tail then (s.(prod := Idle), Dropped(e)) else (s.(prod := FoundRoom(e, h)), Quiet)
    case FoundRoom(e, h) =>
      (s.(mem := s.mem.(buf := s.mem.buf[h := e]), prod := StoredEvent(e, h)), Quiet)
    case StoredEvent(e, h) =>
      (s.(mem := s.mem.(head := (h + 1) % BUF_SIZE), prod := Idle), Accepted(e))
  }

  function Pop(s: Ring): (Ring, Label)
    requires s.mem.Valid() && InBounds(s) && !s.cons.ClearLoadedHead?
  {
    match s.cons
    case Resting => (s.(cons := LoadedTail(s.mem.tail)), Quiet)
    case LoadedTail(t) =>
      if t == s.mem.head then (s.(cons := Resting), FoundEmpty) else (s.(cons := FoundEvent(t)), Quiet)
    case FoundEvent(t) => (s.(cons := LoadedEvent(t, s.mem.buf[t])), Quiet)
    case LoadedEvent(t, val) =>
      (s.(mem := s.mem.(tail := (t + 1) % BUF_SIZE), cons := Resting), Returned(val))
  }

  function Clear(s: Ring): (Ring, Label)
    requires s.mem.Valid() && InBounds(s) && (s.cons.Resting? || s.cons.ClearLoadedHead?)
  {
    match s.cons
    case Resting => (s.(cons := ClearLoadedHead(s.mem.head)), ClearBegins)
    case ClearLoadedHead(h) => (s.(mem := s.mem.(tail := h), cons := Resting), ClearEnds)
  }

  // ---- The specification: a bounded FIFO queue ----

  /** The queued events, and while a `clear` is under way how many were queued when it began. */
  datatype Fifo = Fifo(q: seq<Word>, mark: Option<nat>)

  /** What the queue becomes under an observable step; None when the step is not allowed. */
  function FifoStep(f: Fifo, l: Label): Option<Fifo> {
    match l
    case Quiet => Some(f)
    case Accepted(w) => if |f.q| < CAPACITY then Some(f.(q := f.q + [w])) else None
    case Dropped(_) => if |f.q| == CAPACITY then Some(f) else None
    case Returned(r) =>
      if f.q != [] && f.mark.None? && r == f.q[0] then Some(f.(q := f.q[1..])) else None
    case FoundEmpty => if f.q == [] && f.mark.None? then Some(f) else None
    case ClearBegins => if f.mark.None? then Some(f.(mark := Some(|f.q|))) else None
    case ClearEnds => if f.mark.Some? && f.mark.value <= |f.q| then Some(Fifo(f.q[f.mark.value..], None)) else None
  }

  // ---- Refinement ----

  ghost predicate ProducerKnows(s: Ring, f: Fifo)
    requires s.mem.Valid()
  {
    match s.prod
    case Idle => true
    case LoadedHead(_, h) => h == s.mem.head
    case FoundRoom(_, h) => h == s.mem.head && |f.q| < CAPACITY
    case StoredEvent(e, h) => h == s.mem.head && |f.q| < CAPACITY && s.mem.buf[h] == e
  }

  ghost predicate ConsumerKnows(s: Ring, f: Fifo)
    requires s.mem.Valid()
  {
    match s.cons
    case Resting => f.mark.None?
    case LoadedTail(t) => f.mark.None? && t == s.mem.tail
    case FoundEvent(t) => f.mark.None? && t == s.mem.tail && f.q != []
    case LoadedEvent(t, val) => f.mark.None? && t == s.mem.tail && f.q != [] && val == f.q[0]
    case ClearLoadedHead(h) => f.mark.Some? && f.mark.value <= |f.q| <= CAPACITY && h == Slot(s.mem.tail, f.mark.value)
  }

  ghost predicate Stores(m: Shared, q: seq<Word>) {
    && m.Valid()
    && |q| <= CAPACITY
    && m.head == Slot(m.tail, |q|)
    && forall i :: 0 <= i < |q| ==> m.buf[Slot(m.tail, i)] == q[i]
  }

  /** The ring, at any moment of any interleaving, stands for the queue `f`. */
  ghost predicate Represents(s: Ring, f: Fifo) {
    Stores(s.mem, f.q) && ProducerKnows(s, f) && ConsumerKnows(s, f)
  }

  lemma InitialIsEmpty()
    ensures Represents(Initial, Fifo([], None))
  {
  }

  /** Positions a queue of at most 63 words occupies, counted around the ring. */
  function Slot(t: nat, i: nat): nat
    requires t < BUF_SIZE && i <= BUF_SIZE
  {
    if t + i < BUF_SIZE then t + i else t + i - BUF_SIZE
  }

  lemma PushRefines(s: Ring, f: Fifo, w: Word)
    requires Represents(s, f)
    ensures InBounds(s)
    ensures var r := Push(s, w); FifoStep(f, r.1).Some? && Represents(r.0, FifoStep(f, r.1).value)
  {
    match s.prod
    case LoadedHead(_, h) => OneFurther(s.mem.tail, |f.q|);
    case FoundRoom(e, h) => FreeSlotWritten(s.mem, f.q, e);
    case StoredEvent(e, h) => HeadMoved(s.mem, f.q, e);
    case Idle =>
  }

  /** The slot behind the last one, and when it is the first one again. */
  lemma OneFurther(t: nat, n: nat)
    requires t < BUF_SIZE && n <= CAPACITY
    ensures (Slot(t, n) + 1) % BUF_SIZE == Slot(t, n + 1)
    ensures Slot(t, n + 1) == t <==> n == CAPACITY
  {
  }

  lemma FreeSlotWritten(m: Shared, q: seq<Word>, e: Word)
    requires Stores(m, q) && |q| < CAPACITY
    ensures Stores(m.(buf := m.buf[m.head := e]), q)
  {
  }

  lemma HeadMoved(m: Shared, q: seq<Word>, e: Word)
    requires Stores(m, q) && |q| < CAPACITY && m.buf[m.head] == e
    ensures Stores(m.(head := (m.head + 1) % BUF_SIZE), q + [e])
  {
    OneFurther(m.tail, |q|);
    forall i | 0 <= i < |q + [e]| ensures m.buf[Slot(m.tail, i)] == (q + [e])[i] {
    }
  }

  lemma PopRefines(s: Ring, f: Fifo)
    requires Represents(s, f) && !s.cons.ClearLoadedHead?
    ensures InBounds(s)
    ensures var r := Pop(s); FifoStep(f, r.1).Some? && Represents(r.0, FifoStep(f, r.1).value)
  {
    var r := Pop(s);
    if s.cons.LoadedEvent? {
      var q := FifoStep(f, r.1).value.q;
      var m := r.0.mem;
      forall i | 0 <= i < |q| ensures m.buf[Slot(m.tail, i)] == q[i] {
        assert Slot(m.tail, i) == Slot(s.mem.tail, i + 1);
      }
    } else if s.cons.FoundEvent? {
      assert s.mem.buf[Slot(s.mem.tail, 0)] == f.q[0];
    }
  }

  lemma ClearRefines(s: Ring, f: Fifo)
    requires Represents(s, f) && (s.cons.Resting? || s.cons.ClearLoadedHead?)
    ensures InBounds(s)
    ensures var r := Clear(s); FifoStep(f, r.1).Some? && Represents(r.0, FifoStep(f, r.1).value)
  {
    var r := Clear(s);
    if s.cons.ClearLoadedHead? {
      var n := f.mark.value;
      var q := FifoStep(f, r.1).value.q;
      var m := r.0.mem;
      forall i | 0 <= i < |q| ensures m.buf[Slot(m.tail, i)] == q[i] {
        assert Slot(m.tail, i) == Slot(s.mem.tail, n + i);
      }
    }
  }

  /** Every load and store of either side is a step the FIFO queue allows. */
  lemma StepRefines(s: Ring, f: Fifo, a: Action)
    requires Represents(s, f) && Enabled(s, a)
    ensures InBounds(s)
    ensures var r := Do(s, a); FifoStep(f, r.1).Some? && Represents(r.0, FifoStep(f, r.1).value)
  {
    match a
    case PushStep(w) => PushRefines(s, f, w);
    case PopStep => PopRefines(s, f);
    case ClearStep => ClearRefines(s, f);
  }

  // ---- Whole runs ----

  /** `trace` lists the states of a run in which `acts[i]` leads from `trace[i]` to `trace[i + 1]`
      and is observed as `labels[i]`. */
  ghost predicate IsRun(trace: seq<Ring>, acts: seq<Action>, labels: seq<Label>) {
    && |trace| == |acts| + 1 == |labels| + 1
    && forall i :: 0 <= i < |acts| ==>
      && trace[i].mem.Valid() && InBounds(trace[i]) && Enabled(trace[i], acts[i])
      && Do(trace[i], acts[i]) == (trace[i + 1], labels[i])
  }

  function FifoRun(f: Fifo, labels: seq<Label>): Option<Fifo>
    decreases |labels|
  {
    if labels == [] then Some(f)
    else
      var g := FifoStep(f, labels[0]);
      if g.None? then None else FifoRun(g.value, labels[1..])
  }

  /** Linearizability: in every interleaving, what the two sides observe is a run of the FIFO queue
      of capacity 63, and the ring always stands for that queue. The observed steps lie inside the
      calls: a `push` is accepted at its head store and dropped at its tail load, a `pop` takes
      effect at its tail store and finds the queue empty at its head load. */
  lemma {:induction false} EveryRunIsAFifoRun(trace: seq<Ring>, acts: seq<Action>, labels: seq<Label>, f: Fifo)
    requires IsRun(trace, acts, labels) && Represents(trace[0], f)
    ensures FifoRun(f, labels).Some? && Represents(trace[|acts|], FifoRun(f, labels).value)
    decreases |acts|
  {
    if acts != [] {
      StepRefines(trace[0], f, acts[0]);
      assert Do(trace[0], acts[0]) == (trace[0 + 1], labels[0]);
      var trace', acts', labels' := trace[1..], acts[1..], labels[1..];
      assert IsRun(trace', acts', labels') by {
        forall i | 0 <= i < |acts'|
          ensures trace'[i].mem.Valid() && InBounds(trace'[i]) && Enabled(trace'[i], acts'[i])
          ensures Do(trace'[i], acts'[i]) == (trace'[i + 1], labels'[i])
        {
          assert trace'[i] == trace[i + 1];
        }
      }
      EveryRunIsAFifoRun(trace', acts', labels', FifoStep(f, labels[0]).value);
      assert trace'[|acts'|] == trace[|acts|];
    }
  }

  // ---- What becomes of each event ----

  datatype Fate = Delivered(w: Word) | Cleared(w: Word)

  function AllCleared(q: seq<Word>): (r: seq<Fate>)
    ensures |r| == |q| && forall i :: 0 <= i < |q| ==> r[i] == Cleared(q[i])
  {
    seq(|q|, i requires 0 <= i < |q| => Cleared(q[i]))
  }

  /** The words that leave the queue in one step, and how. */
  function Gone(f: Fifo, l: Label): seq<Fate>
    requires FifoStep(f, l).Some?
  {
    match l
    case Returned(_) => [Delivered(f.q[0])]
    case ClearEnds => AllCleared(f.q[..f.mark.value])
    case _ => []
  }

  function Fates(f: Fifo, labels: seq<Label>): seq<Fate>
    requires FifoRun(f, labels).Some?
    decreases |labels|
  {
    if labels == [] then [] else Gone(f, labels[0]) + Fates(FifoStep(f, labels[0]).value, labels[1..])
  }

  function AcceptedIn(l: Label): seq<Word> {
    if l.Accepted? then [l.w] else []
  }

  function ReturnedIn(l: Label): seq<Word> {
    if l.Returned? then [l.w] else []
  }

  function AcceptedWords(labels: seq<Label>): seq<Word> {
    if labels == [] then [] else AcceptedIn(labels[0]) + AcceptedWords(labels[1..])
  }

  function ReturnedWords(labels: seq<Label>): seq<Word> {
    if labels == [] then [] else ReturnedIn(labels[0]) + ReturnedWords(labels[1..])
  }

  function Words(fates: seq<Fate>): (r: seq<Word>)
    ensures |r| == |fates| && forall i :: 0 <= i < |fates| ==> r[i] == fates[i].w
  {
    seq(|fates|, i requires 0 <= i < |fates| => fates[i].w)
  }

  function DeliveredWords(fates: seq<Fate>): seq<Word> {
    if fates == [] then []
    else (if fates[0].Delivered? then [fates[0].w] else []) + DeliveredWords(fates[1..])
  }

  lemma {:induction false} DeliveredConcat(a: seq<Fate>, b: seq<Fate>)
    ensures DeliveredWords(a + b) == DeliveredWords(a) + DeliveredWords(b)
  {
    if a == [] {
      assert a + b == b;
    } else {
      var first := if a[0].Delivered? then [a[0].w] else [];
      assert (a + b)[0] == a[0] && (a + b)[1..] == a[1..] + b;
      DeliveredConcat(a[1..], b);
      assert first + (DeliveredWords(a[1..]) + DeliveredWords(b)) == first + DeliveredWords(a[1..]) + DeliveredWords(b);
    }
  }

  lemma {:induction false} ClearedDeliversNothing(q: seq<Word>)
    ensures DeliveredWords(AllCleared(q)) == []
  {
    if q != [] {
      assert AllCleared(q)[1..] == AllCleared(q[1..]);
      ClearedDeliversNothing(q[1..]);
    }
  }

  lemma StepAccounts(f: Fifo, l: Label)
    requires FifoStep(f, l).Some?
    ensures f.q + AcceptedIn(l) == Words(Gone(f, l)) + FifoStep(f, l).value.q
    ensures ReturnedIn(l) == DeliveredWords(Gone(f, l))
  {
    match l
    case Returned(w) =>
      assert [Delivered(w)][1..] == [];
    case ClearEnds =>
      ClearedDeliversNothing(f.q[..f.mark.value]);
    case _ =>
  }

  /** Each accepted word leaves the queue once and in order, delivered or cleared, or is still there;
      and what `pop` read is the delivered words, in order. */
  lemma {:induction false} EveryEventOnce(f: Fifo, labels: seq<Label>)
    requires FifoRun(f, labels).Some?
    ensures f.q + AcceptedWords(labels) == Words(Fates(f, labels)) + FifoRun(f, labels).value.q
    ensures ReturnedWords(labels) == DeliveredWords(Fates(f, labels))
    decreases |labels|
  {
    if labels == [] {
      assert f.q + [] == [] + f.q;
    } else {
      var l, g := labels[0], FifoStep(f, labels[0]).value;
      var now, later := Gone(f, l), Fates(g, labels[1..]);
      StepAccounts(f, l);
      EveryEventOnce(g, labels[1..]);
      DeliveredConcat(now, later);
      Rebracket(f.q, AcceptedIn(l), AcceptedWords(labels[1..]), now, g.q, later, FifoRun(g, labels[1..]).value.q);
    }
  }

  lemma Rebracket(q: seq<Word>, a: seq<Word>, rest: seq<Word>, now: seq<Fate>, g: seq<Word>, later: seq<Fate>,
      end: seq<Word>)
    requires q + a == Words(now) + g && g + rest == Words(later) + end
    ensures q + (a + rest) == Words(now + later) + end
  {
    assert q + (a + rest) == (q + a) + rest == Words(now) + (g + rest);
    assert Words(now + later) == Words(now) + Words(later);
  }

  /** The whole story of every run from power-up: if the events `evs` are the ones accepted, then the
      first of them left the queue, in order, each delivered or cleared; the others, at most 63, are
      still queued; and the words `pop` read, in order, are those of the delivered events and decode
      to them unchanged. */
  lemma RingDelivers(trace: seq<Ring>, acts: seq<Action>, labels: seq<Label>, evs: seq<KeyEvent>)
    requires IsRun(trace, acts, labels) && trace[0] == Initial
    requires AcceptedWords(labels) == Encoded(evs)
    requires forall i :: 0 <= i < |evs| ==> Encodable(evs[i])
    ensures FifoRun(Fifo([], None), labels).Some?
    ensures var fates := Fates(Fifo([], None), labels); var n := |fates|;
      && n <= |evs| <= n + CAPACITY
      && Stores(trace[|acts|].mem, Encoded(evs[n..]))
      && (forall i :: 0 <= i < n ==> Decode(fates[i].w.bits) == Some(evs[i]))
      && ReturnedWords(labels) == DeliveredWords(fates)
  {
    InitialIsEmpty();
    var f0 := Fifo([], None);
    EveryRunIsAFifoRun(trace, acts, labels, f0);
    EveryEventOnce(f0, labels);
    var fates, f := Fates(f0, labels), FifoRun(f0, labels).value;
    var n := |fates|;
    assert [] + AcceptedWords(labels) == AcceptedWords(labels);
    assert Encoded(evs) == Words(fates) + f.q;
    assert f.q == Encoded(evs)[n..] == Encoded(evs[n..]);
    forall i | 0 <= i < n ensures Decode(fates[i].w.bits) == Some(evs[i]) {
      assert Words(fates)[i] == Encoded(evs)[i];
      RoundTrip(evs[i]);
    }
  }

  function Encoded(evs: seq<KeyEvent>): (ws: seq<Word>)
    ensures |ws| == |evs| && forall i :: 0 <= i < |evs| ==> ws[i] == Word(Encode(evs[i]))
  {
    seq(|evs|, i requires 0 <= i < |evs| => Word(Encode(evs[i])))
  }

  // ---- `clear` is not atomic: exactly the events accepted while it runs survive it ----

  /** While the consumer is inside `clear`, the producer's steps keep what was there and add to it. */
  lemma {:induction false} PushesDuringClear(f: Fifo, labels: seq<Label>)
    requires FifoRun(f, labels).Some?
    requires forall i :: 0 <= i < |labels| ==> labels[i].Quiet? || labels[i].Accepted? || labels[i].Dropped?
    ensures FifoRun(f, labels).value == Fifo(f.q + AcceptedWords(labels), f.mark)
    decreases |labels|
  {
    if labels == [] {
      assert f.q + [] == f.q;
    } else {
      var l := labels[0];
      PushesDuringClear(FifoStep(f, l).value, labels[1..]);
      assert f.q + (AcceptedIn(l) + AcceptedWords(labels[1..])) == f.q + AcceptedIn(l) + AcceptedWords(labels[1..]);
      assert f.q + [] == f.q;
    }
  }

  /** After a `clear`, the queue holds exactly the events accepted between its load and its store. */
  lemma ClearKeepsLaterPushes(f: Fifo, during: seq<Label>)
    requires f.mark.None? && FifoRun(f, [ClearBegins] + during + [ClearEnds]).Some?
    requires forall i :: 0 <= i < |during| ==> during[i].Quiet? || during[i].Accepted? || during[i].Dropped?
    ensures FifoRun(f, [ClearBegins] + during + [ClearEnds]).value == Fifo(AcceptedWords(during), None)
  {
    var all := [ClearBegins] + during + [ClearEnds];
    var f1 := f.(mark := Some(|f.q|));
    assert all[1..] == during + [ClearEnds];
    FifoRunConcat(f1, during, [ClearEnds]);
    PushesDuringClear(f1, during);
    var f2 := FifoRun(f1, during).value;
    assert [ClearEnds][1..] == [];
    assert f2.q[|f.q|..] == AcceptedWords(during);
  }

  lemma {:induction false} FifoRunConcat(f: Fifo, a: seq<Label>, b: seq<Label>)
    ensures FifoRun(f, a + b) == if FifoRun(f, a).None? then None else FifoRun(FifoRun(f, a).value, b)
    decreases |a|
  {
    if a == [] {
      assert a + b == b;
    } else {
      assert (a + b)[1..] == a[1..] + b;
      if FifoStep(f, a[0]).Some? {
        FifoRunConcat(FifoStep(f, a[0]).value, a[1..], b);
      }
    }
  }

  // ---- The calls themselves, when the other side is not running ----

  function PushAlone(m: Shared, w: Word): Shared
    requires m.Valid()
  {
    var s2 := Push(Push(Ring(m, Idle, Resting), w).0, w).0;
    if s2.prod.Idle? then s2.mem else Push(Push(s2, w).0, w).0.mem
  }

  function PopAlone(m: Shared): (Shared, Option<Word>)
    requires m.Valid()
  {
    var s2 := Pop(Pop(Ring(m, Idle, Resting)).0).0;
    if s2.cons.Resting? then (s2.mem, None)
    else var r := Pop(Pop(s2).0); (r.0.mem, Some(r.1.w))
  }

  function ClearAlone(m: Shared): Shared
    requires m.Valid()
  {
    Clear(Clear(Ring(m, Idle, Resting)).0).0.mem
  }

  class LockFreeRing {
    const buf: array<Word>
    var head: nat
    var tail: nat

    constructor ()
      ensures Valid() && fresh(buf) && Memory() == Initial.mem
    {
      buf := new Word[BUF_SIZE](i => Word(0));
      head, tail := 0, 0;
    }

    ghost predicate Valid()
      reads this, buf
    {
      Memory().Valid()
    }

    ghost function Memory(): Shared
      reads this, buf
    {
      Shared(buf[..], head, tail)
    }

    method Push(ev: KeyEvent)
      requires Valid()
      modifies this, buf
      ensures Valid() && Memory() == PushAlone(old(Memory()), Word(Encode(ev)))
    {
      var h := head;
      var t := tail;
      var next := (h + 1) % BUF_SIZE;
      if next == t {
        return;
      }
      buf[h] := Word(Encode(ev));
      head := next;
    }

    method Pop() returns (ev: Option<KeyEvent>)
      requires Valid()
      modifies this
      ensures Valid() && Memory() == PopAlone(old(Memory())).0
      ensures ev == match PopAlone(old(Memory())).1 case None => None case Some(w) => Decode(w.bits)
    {
      var t := tail;
      var h := head;
      if t == h {
        return None;
      }
      var val := buf[t];
      tail := (t + 1) % BUF_SIZE;
      ev := Decode(val.bits);
    }

    method Clear()
      requires Valid()
      modifies this
      ensures Valid() && Memory() == ClearAlone(old(Memory()))
    {
      var h := head;
      tail := h;
    }
  }

  /** Calls that are not interleaved behave as queue operations on the events stored. */
  lemma CallsAlone(m: Shared, q: seq<Word>, w: Word)
    requires Stores(m, q)
    ensures Stores(PushAlone(m, w), if |q| < CAPACITY then q + [w] else q)
    ensures PopAlone(m).1 == if q == [] then None else Some(q[0])
    ensures Stores(PopAlone(m).0, if q == [] then [] else q[1..])
    ensures Stores(ClearAlone(m), [])
  {
    PushAloneStores(m, q, w);
    PopAloneStores(m, q);
  }

  lemma PushAloneStores(m: Shared, q: seq<Word>, w: Word)
    requires Stores(m, q)
    ensures Stores(PushAlone(m, w), if |q| < CAPACITY then q + [w] else q)
  {
    var s, f := Ring(m, Idle, Resting), Fifo(q, None);
    PushRefines(s, f, w);
    var s1 := Push(s, w).0;
    PushRefines(s1, f, w);
    var s2 := Push(s1, w).0;
    if !s2.prod.Idle? {
      PushRefines(s2, f, w);
      PushRefines(Push(s2, w).0, f, w);
    }
  }

  lemma PopAloneStores(m: Shared, q: seq<Word>)
    requires Stores(m, q)
    ensures PopAlone(m).1 == if q == [] then None else Some(q[0])
    ensures Stores(PopAlone(m).0, if q == [] then [] else q[1..])
  {
    var s, f := Ring(m, Idle, Resting), Fifo(q, None);
    PopRefines(s, f);
    var s1 := Pop(s).0;
    PopRefines(s1, f);
    var s2 := Pop(s1).0;
    if !s2.cons.Resting? {
      PopRefines(s2, f);
      PopRefines(Pop(s2).0, f);
    }
  }
}
