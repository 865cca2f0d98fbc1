/** The calculator's tokens, and the scanner that reads them from bytes. */
module CalcTokens {
  import opened Basics

  datatype Tok = Num(n: I64) | Op(op: Byte) | LParen | RParen

  datatype CalcError =
    | BadNumber
    | InvalidToken
    | MismatchedParens
    | StackUnderflow
    | OverflowOrDivZero
    | BadRpn
    | BadExpression

  const PLUS: Byte := 43
  const MINUS: Byte := 45
  const STAR: Byte := 42
  const SLASH: Byte := 47
  const PERCENT: Byte := 37
  const OPEN: Byte := 40
  const CLOSE: Byte := 41

  /** ASCII whitespace: space, tab, line feed, form feed and carriage return (no vertical tab). */
  predicate IsSpace(c: Byte) {
    c == 32 || c == 9 || c == 10 || c == 12 || c == 13
  }

  predicate IsDigit(c: Byte) {
    48 <= c <= 57
  }

  predicate IsOperator(c: Byte) {
    c == PLUS || c == MINUS || c == STAR || c == SLASH || c == PERCENT
  }

  predicate AllSpace(s: seq<Byte>) {
    forall i :: 0 <= i < |s| ==> IsSpace(s[i])
  }

  predicate AllDigits(s: seq<Byte>) {
    forall i :: 0 <= i < |s| ==> IsDigit(s[i])
  }

  /** Where `-` starts a negative number rather than being an operator. */
  predicate SignPosition(prev: Option<Tok>) {
    prev.None? || prev.value.Op? || prev.value.LParen?
  }

  function Last(out: seq<Tok>): Option<Tok> {
    if out == [] then None else Some(out[|out| - 1])
  }

  /** How many digits `s` starts with. */
  function DigitRun(s: seq<Byte>): (n: nat)
    ensures n <= |s| && AllDigits(s[..n])
    ensures n < |s| ==> !IsDigit(s[n])
  {
    if s == [] || !IsDigit(s[0]) then 0
    else
      var rest := DigitRun(s[1..]);
      assert s[..1 + rest] == [s[0]] + s[1..][..rest];
      1 + rest
  }

  function DecimalValue(digits: seq<Byte>): nat
    requires AllDigits(digits)
  {
    if digits == [] then 0
    else 10 * DecimalValue(digits[..|digits| - 1]) + (digits[|digits| - 1] - 48)
  }

  /** Rust's `str::parse::<i64>` on an optionally negated digit string. */
  function ParseI64(t: seq<Byte>): Option<I64> {
    var digits := if t != [] && t[0] == MINUS then t[1..] else t;
    if digits == [] || !AllDigits(digits) then None
    else
      var v := if t[0] == MINUS then 0 - DecimalValue(digits) else DecimalValue(digits);
      if FitsI64(v) then Some(v) else None
  }

  function TokenOf(c: Byte): Option<Tok> {
    if IsOperator(c) then Some(Op(c))
    else if c == OPEN then Some(LParen)
    else if c == CLOSE then Some(RParen)
    else None
  }

  predicate StartsNumber(c: Byte, prev: Option<Tok>) {
    IsDigit(c) || (c == MINUS && SignPosition(prev))
  }

  function Prepend(ts: seq<Tok>, r: Result<seq<Tok>, CalcError>): Result<seq<Tok>, CalcError> {
    match r
    case Ok(rest) => Ok(ts + rest)
    case Err(e) => Err(e)
  }

  /** The tokens of `s` when `prev` is the token read just before it. */
  function Lex(s: seq<Byte>, prev: Option<Tok>): Result<seq<Tok>, CalcError>
    decreases |s|
  {
    if s == [] then Ok([])
    else if IsSpace(s[0]) then Lex(s[1..], prev)
    else if StartsNumber(s[0], prev) then
      var n := 1 + DigitRun(s[1..]);
      match ParseI64(s[..n])
      case None => Err(BadNumber)
      case Some(v) => Prepend([Num(v)], Lex(s[n..], Some(Num(v))))
    else
      match TokenOf(s[0])
      case None => Err(InvalidToken)
      case Some(t) => Prepend([t], Lex(s[1..], Some(t)))
  }

  method Tokenize(s: seq<Byte>) returns (r: Result<seq<Tok>, CalcError>)
    ensures r == Lex(s, None)
  {
    var out: seq<Tok> := [];
    var i := 0;
    assert s[0..] == s;
    PrependNothing(Lex(s, None));
    while i < |s|
      invariant 0 <= i <= |s|
      invariant Lex(s, None) == Remaining(s, i, out)
    {
      var c := s[i];
      if IsSpace(c) {
        assert s[i..][1..] == s[i + 1..];
        i := i + 1;
        continue;
      }
      if IsDigit(c) || (c == MINUS && (out == [] || out[|out| - 1].Op? || out[|out| - 1].LParen?)) {
        var start := i;
        i := SkipDigits(s, i + 1);
        NumberStep(s, start, i, out);
        var n := ParseI64(s[start..i]);
        if n.None? {
          return Err(BadNumber);
        }
        out := out + [Num(n.value)];
        continue;
      }
      SymbolStep(s, i, out);
      var t := TokenOf(c);
      if t.None? {
        return Err(InvalidToken);
      }
      out := out + [t.value];
      i := i + 1;
    }
    assert out + [] == out;
    return Ok(out);
  }

  /** The inner loop: from `start`, past the digits. */
  method SkipDigits(s: seq<Byte>, start: nat) returns (i: nat)
    requires start <= |s|
    ensures i == start + DigitRun(s[start..]) <= |s|
  {
    i := start;
    while i < |s| && IsDigit(s[i])
      invariant start <= i <= |s|
      invariant DigitRun(s[start..]) == (i - start) + DigitRun(s[i..])
    {
      assert s[i..][1..] == s[i + 1..];
      i := i + 1;
    }
  }

  /** What remains to be read when `out` has been read from the first `i` bytes. */
  ghost function Remaining(s: seq<Byte>, i: nat, out: seq<Tok>): Result<seq<Tok>, CalcError>
    requires i <= |s|
  {
    Prepend(out, Lex(s[i..], Last(out)))
  }

  lemma NumberStep(s: seq<Byte>, i: nat, end: nat, out: seq<Tok>)
    requires i < |s| && !IsSpace(s[i]) && StartsNumber(s[i], Last(out))
    requires end == i + 1 + DigitRun(s[i + 1..])
    ensures var n := ParseI64(s[i..end]);
      Remaining(s, i, out) == if n.None? then Err(BadNumber) else Remaining(s, end, out + [Num(n.value)])
  {
    var rest, n, v := s[i..], end - i, ParseI64(s[i..end]);
    assert rest[1..] == s[i + 1..];
    assert rest[..n] == s[i..end] && rest[n..] == s[end..];
    LexNumber(rest, n, Last(out));
    if v.Some? {
      var t := Num(v.value);
      assert Last(out + [t]) == Some(t);
      PrependTwice(out, [t], Lex(s[end..], Some(t)));
    }
  }

  lemma LexNumber(s: seq<Byte>, n: nat, prev: Option<Tok>)
    requires s != [] && !IsSpace(s[0]) && StartsNumber(s[0], prev)
    requires n == 1 + DigitRun(s[1..])
    ensures var v := ParseI64(s[..n]);
      Lex(s, prev) == if v.None? then Err(BadNumber) else Prepend([Num(v.value)], Lex(s[n..], Some(Num(v.value))))
  {
  }

  lemma SymbolStep(s: seq<Byte>, i: nat, out: seq<Tok>)
    requires i < |s| && !IsSpace(s[i]) && !StartsNumber(s[i], Last(out))
    ensures var t := TokenOf(s[i]);
      Remaining(s, i, out) == if t.None? then Err(InvalidToken) else Remaining(s, i + 1, out + [t.value])
  {
    assert s[i..][1..] == s[i + 1..];
    var t := TokenOf(s[i]);
    if t.Some? {
      PrependTwice(out, [t.value], Lex(s[i + 1..], t));
    }
  }

  lemma PrependNothing(r: Result<seq<Tok>, CalcError>)
    ensures Prepend([], r) == r
  {
    if r.Ok? {
      assert [] + r.value == r.value;
    }
  }

  lemma PrependTwice(a: seq<Tok>, b: seq<Tok>, r: Result<seq<Tok>, CalcError>)
    ensures Prepend(a, Prepend(b, r)) == Prepend(a + b, r)
  {
    if r.Ok? {
      assert a + (b + r.value) == (a + b) + r.value;
    }
  }

  // ---- What the scanner accepts: a text is a row of spelled tokens with white space between ----

  /** One token of a text: the white space before it, its spelling, and the token meant. */
  datatype Lexeme = Lexeme(gap: seq<Byte>, text: seq<Byte>, tok: Tok)

  ghost predicate Spells(text: seq<Byte>, tok: Tok) {
    match tok
    case Num(n) =>
      || (text != [] && AllDigits(text) && n == DecimalValue(text))
      || (|text| > 1 && text[0] == MINUS && AllDigits(text[1..]) && n == 0 - DecimalValue(text[1..]))
    case Op(o) => IsOperator(o) && text == [o]
    case LParen => text == [OPEN]
    case RParen => text == [CLOSE]
  }

  /** The signs are where signs may be, and no two digit strings touch. */
  ghost predicate Placed(l: Lexeme, prev: Option<Tok>) {
    && AllSpace(l.gap)
    && Spells(l.text, l.tok)
    && (l.tok.Num? && l.text[0] == MINUS ==> SignPosition(prev))
    && (l.tok == Op(MINUS) ==> !SignPosition(prev))
    && (l.tok.Num? && prev.Some? && prev.value.Num? ==> l.gap != [])
  }

  ghost predicate LaidOut(ls: seq<Lexeme>, prev: Option<Tok>) {
    ls == [] || (Placed(ls[0], prev) && LaidOut(ls[1..], Some(ls[0].tok)))
  }

  function Text(ls: seq<Lexeme>, tail: seq<Byte>): seq<Byte> {
    if ls == [] then tail else ls[0].gap + ls[0].text + Text(ls[1..], tail)
  }

  function Toks(ls: seq<Lexeme>): (ts: seq<Tok>)
    ensures |ts| == |ls|
  {
    if ls == [] then [] else [ls[0].tok] + Toks(ls[1..])
  }

  lemma {:induction false} LexSkipsSpace(gap: seq<Byte>, s: seq<Byte>, prev: Option<Tok>)
    requires AllSpace(gap)
    ensures Lex(gap + s, prev) == Lex(s, prev)
  {
    if gap == [] {
      assert gap + s == s;
    } else {
      assert (gap + s)[1..] == gap[1..] + s;
      LexSkipsSpace(gap[1..], s, prev);
    }
  }

  lemma {:induction false} DigitRunOf(digits: seq<Byte>, rest: seq<Byte>)
    requires AllDigits(digits) && (rest != [] ==> !IsDigit(rest[0]))
    ensures DigitRun(digits + rest) == |digits|
  {
    if digits == [] {
      assert digits + rest == rest;
    } else {
      assert (digits + rest)[1..] == digits[1..] + rest;
      DigitRunOf(digits[1..], rest);
    }
  }

  /** After a number, the rest of a laid-out text never starts with a digit. */
  lemma NoDigitAfterNumber(ls: seq<Lexeme>, tail: seq<Byte>, prev: Option<Tok>)
    requires LaidOut(ls, prev) && AllSpace(tail) && prev.Some? && prev.value.Num?
    ensures Text(ls, tail) != [] ==> !IsDigit(Text(ls, tail)[0])
  {
    if ls != [] && ls[0].gap == [] {
      assert Text(ls, tail)[0] == ls[0].text[0];
    }
  }

  /** One scanner step on a spelled token followed by text that cannot extend it. */
  lemma LexToken(l: Lexeme, rest: seq<Byte>, prev: Option<Tok>)
    requires Placed(l, prev)
    requires l.tok.Num? && rest != [] ==> !IsDigit(rest[0])
    ensures Lex(l.text + rest, prev) == Prepend([l.tok], Lex(rest, Some(l.tok)))
  {
    hide Lex, DecimalValue, ParseI64, DigitRun, TokenOf, StartsNumber;
    var s := l.text + rest;
    assert s[|l.text|..] == rest && s[..|l.text|] == l.text;
    if l.tok.Num? {
      NumberSpelled(l, prev);
      assert s[1..] == l.text[1..] + rest;
      DigitRunOf(l.text[1..], rest);
      ScansNumber(s, prev, l.tok.n);
    } else {
      SymbolSpelled(l, prev);
      ScansSymbol(s, prev, l.tok);
    }
  }

  lemma NumberSpelled(l: Lexeme, prev: Option<Tok>)
    requires Placed(l, prev) && l.tok.Num?
    ensures l.text != [] && AllDigits(l.text[1..]) && ParseI64(l.text) == Some(l.tok.n)
    ensures StartsNumber(l.text[0], prev) && !IsSpace(l.text[0])
  {
    hide DecimalValue;
  }

  lemma SymbolSpelled(l: Lexeme, prev: Option<Tok>)
    requires Placed(l, prev) && !l.tok.Num?
    ensures |l.text| == 1 && TokenOf(l.text[0]) == Some(l.tok) && !StartsNumber(l.text[0], prev) && !IsSpace(l.text[0])
  {
  }

  lemma ScansNumber(s: seq<Byte>, prev: Option<Tok>, v: I64)
    requires s != [] && !IsSpace(s[0]) && StartsNumber(s[0], prev)
    requires ParseI64(s[..1 + DigitRun(s[1..])]) == Some(v)
    ensures Lex(s, prev) == Prepend([Num(v)], Lex(s[1 + DigitRun(s[1..])..], Some(Num(v))))
  {
    hide ParseI64, DigitRun, StartsNumber;
  }

  lemma ScansSymbol(s: seq<Byte>, prev: Option<Tok>, t: Tok)
    requires s != [] && !IsSpace(s[0]) && !StartsNumber(s[0], prev) && TokenOf(s[0]) == Some(t)
    ensures Lex(s, prev) == Prepend([t], Lex(s[1..], Some(t)))
  {
    hide TokenOf, StartsNumber;
  }

  /** Every laid-out text is scanned to exactly the tokens it spells. */
  lemma {:induction false} LexAccepts(ls: seq<Lexeme>, tail: seq<Byte>, prev: Option<Tok>)
    requires LaidOut(ls, prev) && AllSpace(tail)
    ensures Lex(Text(ls, tail), prev) == Ok(Toks(ls))
  {
    if ls == [] {
      LexSkipsSpace(tail, [], prev);
      assert tail + [] == tail;
    } else {
      var l, rest := ls[0], Text(ls[1..], tail);
      assert Text(ls, tail) == l.gap + (l.text + rest);
      LexSkipsSpace(l.gap, l.text + rest, prev);
      LexAccepts(ls[1..], tail, Some(l.tok));
      if l.tok.Num? {
        NoDigitAfterNumber(ls[1..], tail, Some(l.tok));
      }
      LexToken(l, rest, prev);
    }
  }

  /** One successful scanner step read a well-placed token. */
  lemma LexReads(gap: seq<Byte>, s: seq<Byte>, prev: Option<Tok>) returns (l: Lexeme)
    requires Lex(s, prev).Ok? && AllSpace(gap) && s != [] && !IsSpace(s[0])
    requires prev.Some? && prev.value.Num? && gap == [] ==> !IsDigit(s[0])
    ensures Placed(l, prev) && l.gap == gap && 0 < |l.text| <= |s| && l.text == s[..|l.text|]
    ensures var rest := s[|l.text|..];
      && Lex(s, prev) == Prepend([l.tok], Lex(rest, Some(l.tok)))
      && (l.tok.Num? && rest != [] ==> !IsDigit(rest[0]))
  {
    if StartsNumber(s[0], prev) {
      var n := 1 + DigitRun(s[1..]);
      l := Lexeme(gap, s[..n], Num(ParseI64(s[..n]).value));
      assert s[..n][1..] == s[1..][..n - 1];
      assert s[..n] == [s[0]] + s[1..][..n - 1];
    } else {
      l := Lexeme(gap, s[..1], TokenOf(s[0]).value);
    }
  }

  /** Every text the scanner accepts is laid out; `gap` is white space already skipped. */
  lemma {:induction false} LexSound(gap: seq<Byte>, s: seq<Byte>, prev: Option<Tok>)
    returns (ls: seq<Lexeme>, tail: seq<Byte>)
    requires Lex(s, prev).Ok? && AllSpace(gap)
    requires prev.Some? && prev.value.Num? && gap == [] && s != [] ==> !IsDigit(s[0])
    ensures LaidOut(ls, prev) && AllSpace(tail)
    ensures Text(ls, tail) == gap + s && Toks(ls) == Lex(s, prev).value
    decreases |s|
  {
    if s == [] {
      ls, tail := [], gap;
      assert gap + s == gap;
    } else if IsSpace(s[0]) {
      ls, tail := LexSound(gap + [s[0]], s[1..], prev);
      assert gap + [s[0]] + s[1..] == gap + s;
    } else {
      var l := LexReads(gap, s, prev);
      var rest := s[|l.text|..];
      var ls', tail' := LexSound([], rest, Some(l.tok));
      ls, tail := [l] + ls', tail';
      assert ls[1..] == ls';
      assert [] + rest == rest;
      assert s == l.text + rest;
      assert gap + l.text + rest == gap + s;
    }
  }

  /** `tokenize` returns `ts` exactly on the texts that spell `ts` with white space between tokens. */
  lemma TokenizeExactly(s: seq<Byte>, ts: seq<Tok>)
    ensures Lex(s, None) == Ok(ts)
      <==> exists ls, tail :: LaidOut(ls, None) && AllSpace(tail) && Text(ls, tail) == s && Toks(ls) == ts
  {
    if Lex(s, None) == Ok(ts) {
      var ls, tail := LexSound([], s, None);
      assert [] + s == s;
    }
    forall ls, tail | LaidOut(ls, None) && AllSpace(tail) && Text(ls, tail) == s && Toks(ls) == ts
      ensures Lex(s, None) == Ok(ts)
    {
      LexAccepts(ls, tail, None);
    }
  }

  // ---- The usual way to print a number is one of its spellings ----

  function Decimal(n: nat): (digits: seq<Byte>)
    ensures digits != [] && AllDigits(digits)
  {
    if n < 10 then [48 + n] else Decimal(n / 10) + [48 + n % 10]
  }

  function Literal(n: I64): seq<Byte> {
    if n < 0 then [MINUS] + Decimal(0 - n) else Decimal(n)
  }

  lemma {:induction false} DecimalRoundTrip(n: nat)
    ensures DecimalValue(Decimal(n)) == n
  {
    if n >= 10 {
      DecimalRoundTrip(n / 10);
      var d := Decimal(n);
      assert d[..|d| - 1] == Decimal(n / 10);
    } else {
      assert Decimal(n)[..0] == [];
    }
  }

  lemma LiteralSpells(n: I64)
    ensures Spells(Literal(n), Num(n))
  {
    if n < 0 {
      DecimalRoundTrip(0 - n);
      assert Literal(n)[1..] == Decimal(0 - n);
    } else {
      DecimalRoundTrip(n);
    }
  }
}
