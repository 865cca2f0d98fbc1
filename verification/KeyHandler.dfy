/** The keyboard interrupt: scan codes, the modifier flags they set, and the events they push. */
module KeyHandler {
  import opened Basics
  import opened Bits
  import opened KeyEvents
  import opened KeyRing

  const PREFIX: Byte := 0xE0

  const SHIFT_DOWN: set<Byte> := {0x2A, 0x36}
  const SHIFT_UP: set<Byte> := {0xAA, 0xB6}
  const CTRL_DOWN: set<Byte> := {0x1D}
  const CTRL_UP: set<Byte> := {0x9D}

  datatype Modifiers = Modifiers(shift: bool, ctrl: bool, extended: bool)

  const Released := Modifiers(false, false, false)

  function TranslateExtended(sc: Byte): Option<KeyEvent> {
    if sc == 0x48 then Some(Up)
    else if sc == 0x50 then Some(Down)
    else if sc == 0x4B then Some(Left)
    else if sc == 0x4D then Some(Right)
    else if sc == 0x49 then Some(PageUp)
    else if sc == 0x51 then Some(PageDown)
    else None
  }

  function AfterRelease(m: Modifiers, sc: Byte): Modifiers {
    if sc == 0x2A || sc == 0x36 then m.(shift := false) else if sc == 0x1D then m.(ctrl := false) else m
  }

  function AfterPress(m: Modifiers, sc: Byte): Modifiers {
    if sc == 0x2A || sc == 0x36 then m.(shift := true) else if sc == 0x1D then m.(ctrl := true) else m
  }

  function PressEvent(m: Modifiers, sc: Byte): Option<KeyEvent> {
    if sc == 0x2A || sc == 0x36 || sc == 0x1D then None else Translate(sc, m.shift, m.ctrl)
  }

  /** One scan code: the flags after it, and the event it pushes. */
  function OnScancode(m: Modifiers, sc: Byte): (Modifiers, Option<KeyEvent>) {
    if sc == PREFIX then (m.(extended := true), None)
    else if m.extended then (m.(extended := false), TranslateExtended(sc))
    else if sc >= 0x80 then (AfterRelease(m, sc - 0x80), None)
    else (AfterPress(m, sc), PressEvent(m, sc))
  }

  // ---- Sequences of scan codes ----

  function After(codes: seq<Byte>): Modifiers {
    if codes == [] then Released else OnScancode(After(codes[..|codes| - 1]), codes[|codes| - 1]).0
  }

  /** The events pushed. */
  function Typed(codes: seq<Byte>): seq<KeyEvent> {
    if codes == [] then []
    else
      var front := codes[..|codes| - 1];
      Typed(front) + match OnScancode(After(front), codes[|codes| - 1]).1 case None => [] case Some(ev) => [ev]
  }

  /** Code `k` is neither a prefix nor right behind one. */
  predicate Plain(codes: seq<Byte>, k: nat)
    requires k < |codes|
  {
    codes[k] != PREFIX && (k > 0 ==> codes[k - 1] != PREFIX)
  }

  /** A key went down, and has not come up since. */
  ghost predicate Held(codes: seq<Byte>, down: set<Byte>, up: set<Byte>) {
    exists k: nat :: k < |codes| && HeldSince(codes, down, up, k)
  }

  ghost predicate HeldSince(codes: seq<Byte>, down: set<Byte>, up: set<Byte>, k: nat)
    requires k < |codes|
  {
    && Plain(codes, k) && codes[k] in down
    && forall j :: k < j < |codes| && Plain(codes, j) ==> codes[j] !in up
  }

  lemma HeldNext(codes: seq<Byte>, sc: Byte, down: set<Byte>, up: set<Byte>)
    requires down !! up
    ensures var plain := sc != PREFIX && (codes != [] ==> codes[|codes| - 1] != PREFIX);
      Held(codes + [sc], down, up) <==>
        if plain && sc in down then true else Held(codes, down, up) && !(plain && sc in up)
  {
    var all := codes + [sc];
    assert forall k: nat :: k < |codes| ==> Plain(all, k) == Plain(codes, k);
    assert HeldSince(all, down, up, |codes|) <==> Plain(all, |codes|) && sc in down;
    forall k: nat | k < |codes| ensures
      HeldSince(all, down, up, k) <==> HeldSince(codes, down, up, k) && !(Plain(all, |codes|) && sc in up)
    {
      HeldSinceNext(codes, sc, down, up, k);
    }
  }

  lemma HeldSinceNext(codes: seq<Byte>, sc: Byte, down: set<Byte>, up: set<Byte>, k: nat)
    requires k < |codes|
    ensures var all := codes + [sc];
      HeldSince(all, down, up, k) <==> HeldSince(codes, down, up, k) && !(Plain(all, |codes|) && sc in up)
  {
    var all := codes + [sc];
    assert forall j: nat :: j < |codes| ==> all[j] == codes[j] && Plain(all, j) == Plain(codes, j);
    assert all[|codes|] == sc;
  }

  /** What the flags mean after any sequence of scan codes. Both shift keys share one flag, so that the shift
      counts as up as soon as one of two held keys is released; codes behind a prefix, such as those of the
      right control key, do not count. */
  lemma {:induction false} FlagsAre(codes: seq<Byte>)
    ensures var m := After(codes);
      && (m.extended <==> codes != [] && codes[|codes| - 1] == PREFIX)
      && (m.shift <==> Held(codes, SHIFT_DOWN, SHIFT_UP))
      && (m.ctrl <==> Held(codes, CTRL_DOWN, CTRL_UP))
  {
    if codes != [] {
      var front, sc := codes[..|codes| - 1], codes[|codes| - 1];
      assert codes == front + [sc];
      FlagsAre(front);
      HeldNext(front, sc, SHIFT_DOWN, SHIFT_UP);
      HeldNext(front, sc, CTRL_DOWN, CTRL_UP);
    }
  }

  /** The keyboard only pushes events that survive the encoding. */
  lemma {:induction false} TypedSurvives(codes: seq<Byte>)
    ensures forall ev :: ev in Typed(codes) ==> Encodable(ev) && Decode(Encode(ev)) == Some(ev)
  {
    hide Encode, Decode;
    if codes != [] {
      var front, sc := codes[..|codes| - 1], codes[|codes| - 1];
      TypedSurvives(front);
      var ev := OnScancode(After(front), sc).1;
      if ev.Some? {
        EventSurvives(After(front), sc);
      }
    }
  }

  lemma EventSurvives(m: Modifiers, sc: Byte)
    requires OnScancode(m, sc).1.Some?
    ensures var ev := OnScancode(m, sc).1.value; Encodable(ev) && Decode(Encode(ev)) == Some(ev)
  {
    hide Encode, Decode;
    var ev := OnScancode(m, sc).1.value;
    if sc != PREFIX && m.extended {
      assert ev == TranslateExtended(sc).value && !ev.Ctrl?;
    } else {
      TranslatedSurvives(sc, m.shift, m.ctrl);
    }
    RoundTrip(ev);
  }

  /** Whatever is typed and accepted by the ring is read back unchanged and in order, however the shell's
      reads and clears interleave with the interrupts. */
  lemma TypedIsDelivered(codes: seq<Byte>, trace: seq<Ring>, acts: seq<Action>, labels: seq<Label>, evs: seq<KeyEvent>)
    requires IsRun(trace, acts, labels) && trace[0] == Initial
    requires AcceptedWords(labels) == Encoded(evs) && forall i :: 0 <= i < |evs| ==> evs[i] in Typed(codes)
    ensures FifoRun(Fifo([], None), labels).Some?
    ensures var fates := Fates(Fifo([], None), labels); var n := |fates|;
      && n <= |evs| <= n + CAPACITY
      && (forall i :: 0 <= i < n ==> Decode(fates[i].w.bits) == Some(evs[i]))
      && ReturnedWords(labels) == DeliveredWords(fates)
  {
    hide Encode, Decode, IsRun, Fates, FifoRun, AcceptedWords, ReturnedWords, DeliveredWords, Typed;
    TypedSurvives(codes);
    RingDelivers(trace, acts, labels, evs);
  }

  // ---- The interrupt handler ----

  class Keyboard {
    const ring: LockFreeRing
    var shift: bool
    var ctrl: bool
    var extended: bool

    constructor ()
      ensures Valid() && fresh(ring) && fresh(ring.buf) && Flags() == Released && ring.Memory() == Initial.mem
    {
      ring := new LockFreeRing();
      shift, ctrl, extended := false, false, false;
    }

    ghost predicate Valid()
      reads this, ring, ring.buf
    {
      ring.Valid()
    }

    function Flags(): Modifiers
      reads this
    {
      Modifiers(shift, ctrl, extended)
    }

    /** `handle_irq`. A set status bit 5 means that the byte is the mouse's. */
    method HandleIrq(status: Byte, sc: Byte)
      requires Valid()
      modifies this, ring, ring.buf
      ensures Valid()
      ensures var (m, ev) := if Bit(status, 5) then (old(Flags()), None) else OnScancode(old(Flags()), sc);
        && Flags() == m
        && ring.Memory() ==
          match ev
          case None => old(ring.Memory())
          case Some(e) => PushAlone(old(ring.Memory()), Word(Encode(e)))
    {
      hide PushAlone, Encode, Translate, TranslateExtended, Bit;
      if Bit(status, 5) {
        return;
      }
      if sc == PREFIX {
        extended := true;
        return;
      }
      var was := extended;
      extended := false;
      if was {
        var ev := TranslateExtended(sc);
        if ev.Some? {
          ring.Push(ev.value);
        }
        return;
      }
      if sc >= 0x80 {
        HandleRelease(sc - 0x80);
        return;
      }
      var ev := TranslatePress(sc);
      if ev.Some? {
        ring.Push(ev.value);
      }
    }

    method HandleRelease(sc: Byte)
      modifies this
      ensures Flags() == AfterRelease(old(Flags()), sc)
    {
      if sc == 0x2A || sc == 0x36 {
        shift := false;
      } else if sc == 0x1D {
        ctrl := false;
      }
    }

    /** `translate`. */
    method TranslatePress(sc: Byte) returns (ev: Option<KeyEvent>)
      modifies this
      ensures Flags() == AfterPress(old(Flags()), sc) && ev == PressEvent(old(Flags()), sc)
    {
      if sc == 0x2A || sc == 0x36 {
        shift := true;
        return None;
      }
      if sc == 0x1D {
        ctrl := true;
        return None;
      }
      ev := Translate(sc, shift, ctrl);
    }
  }
}
