/** Key events, their 32-bit encoding, and the scan-code translation that produces them. */
module KeyEvents {
  import opened Basics

  /** Unicode scalar values, the values of Rust's `char`. */
  type Scalar = c: bv32 | c < 0x110000 && !(0xD800 <= c < 0xE000)

  /** One byte, held in a machine word. */
  type Code = c: bv32 | c < 0x100

  datatype KeyEvent =
    | Char(code: Code)
    | Up | Down | Left | Right
    | Backspace | Enter | Escape
    | Ctrl(c: Scalar)
    | PageUp | PageDown

  function Encode(ev: KeyEvent): bv32 {
    match ev
    case Char(c) => (1 << 8) | c
    case Up => 2 << 8
    case Down => 3 << 8
    case Left => 4 << 8
    case Right => 5 << 8
    case Backspace => 6 << 8
    case Enter => 7 << 8
    case Escape => 8 << 8
    case Ctrl(c) => (9 << 8) | c
    case PageUp => 10 << 8
    case PageDown => 11 << 8
  }

  function Decode(val: bv32): Option<KeyEvent> {
    var typ := val >> 8;
    var data := val & 0xFF;
    if val == 0 then None
    else if typ == 1 then Some(Char(data))
    else if typ == 2 then Some(Up)
    else if typ == 3 then Some(Down)
    else if typ == 4 then Some(Left)
    else if typ == 5 then Some(Right)
    else if typ == 6 then Some(Backspace)
    else if typ == 7 then Some(Enter)
    else if typ == 8 then Some(Escape)
    else if typ == 9 then Some(Ctrl(data))
    else if typ == 10 then Some(PageUp)
    else if typ == 11 then Some(PageDown)
    else None
  }

  /** One byte is kept for the character of a control event. */
  predicate Encodable(ev: KeyEvent) {
    ev.Ctrl? ==> ev.c < 0x100
  }

  /** The encoding is undone exactly for the events whose character fits in one byte. */
  lemma RoundTrip(ev: KeyEvent)
    ensures Decode(Encode(ev)) == Some(ev) <==> Encodable(ev)
  {
    hide Encode, Decode;
    match ev
    case Char(c) => CharReturns(c);
    case Ctrl(c) => CtrlReturns(c);
    case _ => OtherReturns(ev);
  }

  lemma CharReturns(c: Code)
    ensures Decode(Encode(Char(c))) == Some(Char(c))
  {
    TagAndByte(1, c);
  }

  lemma CtrlReturns(c: Scalar)
    ensures Decode(Encode(Ctrl(c))) == Some(Ctrl(c)) <==> c < 0x100
  {
    if c < 0x100 {
      TagAndByte(9, c);
    } else {
      LowByte((9 << 8) | c);
    }
  }

  lemma OtherReturns(ev: KeyEvent)
    requires !ev.Char? && !ev.Ctrl?
    ensures Decode(Encode(ev)) == Some(ev)
  {
  }

  lemma TagAndByte(tag: bv32, c: Code)
    requires 0 < tag < 0x100
    ensures var v := (tag << 8) | c; v != 0 && v >> 8 == tag && v & 0xFF == c
  {
  }

  lemma LowByte(v: bv32)
    ensures v & 0xFF < 0x100
  {
  }

  const LOWER: seq<Code> := [
    0, 27, 49, 50, 51, 52, 53, 54, 55, 56, 57, 48, 45, 61, 8,
    9, 113, 119, 101, 114, 116, 121, 117, 105, 111, 112, 91, 93, 10,
    0, 97, 115, 100, 102, 103, 104, 106, 107, 108, 59, 39, 96, 0,
    92, 122, 120, 99, 118, 98, 110, 109, 44, 46, 47, 0, 42, 0, 32]

  const UPPER: seq<Code> := [
    0, 27, 33, 64, 35, 36, 37, 94, 38, 42, 40, 41, 95, 43, 8,
    9, 81, 87, 69, 82, 84, 89, 85, 73, 79, 80, 123, 125, 10,
    0, 65, 83, 68, 70, 71, 72, 74, 75, 76, 58, 34, 126, 0,
    124, 90, 88, 67, 86, 66, 78, 77, 60, 62, 63, 0, 42, 0, 32]

  function ScancodeToAscii(sc: Byte, shift: bool): Option<Code> {
    if sc >= |LOWER| then None
    else
      var c := if shift then UPPER[sc] else LOWER[sc];
      if c == 0 || c == 27 then None else Some(c)
  }

  /** The event for a pressed key other than a modifier. */
  function Translate(sc: Byte, shift: bool, ctrl: bool): Option<KeyEvent> {
    if sc == 0x0E then Some(Backspace)
    else if sc == 0x1C then Some(Enter)
    else if sc == 0x01 then Some(Escape)
    else match ScancodeToAscii(sc, shift)
      case None => None
      case Some(c) => Some(if ctrl then Ctrl(c) else Char(c))
  }

  /** A key without the extended prefix only gives events that survive the encoding. */
  lemma TranslatedSurvives(sc: Byte, shift: bool, ctrl: bool)
    ensures Translate(sc, shift, ctrl).Some? ==>
      Decode(Encode(Translate(sc, shift, ctrl).value)) == Translate(sc, shift, ctrl)
  {
    if Translate(sc, shift, ctrl).Some? {
      RoundTrip(Translate(sc, shift, ctrl).value);
    }
  }
}
