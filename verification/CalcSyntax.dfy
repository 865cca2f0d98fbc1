/** Arithmetic expressions: their meaning, their postfix form and the ways to print them. */
module CalcSyntax {
  import opened Basics
  import opened CalcTokens

  datatype Expr = Lit(n: I64) | Bin(op: Byte, left: Expr, right: Expr)

  predicate WellFormed(e: Expr) {
    match e
    case Lit(_) => true
    case Bin(op, l, r) => IsOperator(op) && WellFormed(l) && WellFormed(r)
  }

  function Prec(op: Byte): int {
    if op == PLUS || op == MINUS then 1
    else if op == STAR || op == SLASH || op == PERCENT then 2
    else 0
  }

  // ---- Rust's checked 64-bit operators ----

  /** Division rounding toward zero. */
  function TruncDiv(a: int, b: int): int
    requires b != 0
  {
    if a >= 0 then a / b else -((-a) / b)
  }

  function TruncRem(a: int, b: int): int
    requires b != 0
  {
    if a >= 0 then a % b else -((-a) % b)
  }

  function Fit(n: int): Option<I64> {
    if FitsI64(n) then Some(n) else None
  }

  function CheckedRem(a: I64, b: I64): Option<I64> {
    if b == 0 || (a == I64_MIN && b == -1) then None else Fit(TruncRem(a, b))
  }

  function Apply(op: Byte, a: I64, b: I64): Option<I64> {
    if op == PLUS then Fit(a + b)
    else if op == MINUS then Fit(a - b)
    else if op == STAR then Fit(a * b)
    else if op == SLASH then if b == 0 then None else Fit(TruncDiv(a, b))
    else if op == PERCENT then CheckedRem(a, b)
    else None
  }

  /** Truncating quotient and remainder are what they should be: they recombine to the dividend,
      the remainder is smaller than the divisor and never has the opposite sign of the dividend. */
  lemma TruncatingDivision(a: int, b: int)
    requires b != 0
    ensures a == b * TruncDiv(a, b) + TruncRem(a, b)
    ensures if b > 0 then -b < TruncRem(a, b) < b else b < TruncRem(a, b) < -b
    ensures a >= 0 ==> TruncRem(a, b) >= 0
    ensures a <= 0 ==> TruncRem(a, b) <= 0
  {
    if a < 0 {
      var q := (-a) / b;
      assert -a == b * q + (-a) % b;
      assert b * -q == -(b * q);
    }
  }

  // ---- Two definitions of an expression's value ----

  /** The value computed with 64-bit checked operators. */
  function Value(e: Expr): Option<I64> {
    match e
    case Lit(n) => Some(n)
    case Bin(op, l, r) =>
      var a := Value(l);
      var b := Value(r);
      if a.None? || b.None? then None else Apply(op, a.value, b.value)
  }

  /** The value over unbounded integers; a division by zero counts as 0. */
  function Exact(e: Expr): int {
    match e
    case Lit(n) => n
    case Bin(op, l, r) =>
      var a := Exact(l);
      var b := Exact(r);
      if op == PLUS then a + b
      else if op == MINUS then a - b
      else if op == STAR then a * b
      else if b == 0 then 0
      else if op == SLASH then TruncDiv(a, b)
      else TruncRem(a, b)
  }

  /** Some operation inside `e` divides by zero, leaves the 64-bit range, or is MIN % -1. */
  predicate Faults(e: Expr) {
    match e
    case Lit(_) => false
    case Bin(op, l, r) =>
      || Faults(l)
      || Faults(r)
      || ((op == SLASH || op == PERCENT) && Exact(r) == 0)
      || (op == PERCENT && Exact(l) == I64_MIN && Exact(r) == -1)
      || !FitsI64(Exact(e))
  }

  /** Checked evaluation fails exactly when a sub-operation faults, and otherwise is exact. */
  lemma {:induction false} CheckedIsExact(e: Expr)
    requires WellFormed(e)
    ensures Value(e) == if Faults(e) then None else Some(Exact(e))
  {
    match e
    case Lit(_) =>
    case Bin(op, l, r) =>
      CheckedIsExact(l);
      CheckedIsExact(r);
      if op == PERCENT && Exact(r) != 0 {
        TruncatingDivision(Exact(l), Exact(r));
      }
  }

  // ---- Postfix ----

  function Postfix(e: Expr): seq<Tok> {
    match e
    case Lit(n) => [Num(n)]
    case Bin(op, l, r) => Postfix(l) + Postfix(r) + [Op(op)]
  }

  // ---- Infix: expressions with explicit parentheses ----

  datatype Infix = Number(n: I64) | Paren(inner: Infix) | Binary(op: Byte, left: Infix, right: Infix)

  /** How tightly the printed form holds together; 3 for a number or a parenthesis. */
  function Level(p: Infix): int {
    if p.Binary? then Prec(p.op) else 3
  }

  /** Parentheses are present wherever precedence or left associativity needs them. */
  predicate Bracketed(p: Infix) {
    match p
    case Number(_) => true
    case Paren(q) => Bracketed(q)
    case Binary(op, l, r) =>
      IsOperator(op) && Bracketed(l) && Bracketed(r) && Level(l) >= Prec(op) && Level(r) > Prec(op)
  }

  function Meaning(p: Infix): Expr {
    match p
    case Number(n) => Lit(n)
    case Paren(q) => Meaning(q)
    case Binary(op, l, r) => Bin(op, Meaning(l), Meaning(r))
  }

  function Print(p: Infix): (ts: seq<Tok>)
    ensures ts != []
  {
    match p
    case Number(n) => [Num(n)]
    case Paren(q) => [LParen] + Print(q) + [RParen]
    case Binary(op, l, r) => Print(l) + [Op(op)] + Print(r)
  }

  function Wrap(p: Infix, level: int): Infix {
    if Level(p) >= level then p else Paren(p)
  }

  /** The printing with parentheses only where they are needed. */
  function Minimal(e: Expr): Infix {
    match e
    case Lit(n) => Number(n)
    case Bin(op, l, r) => Binary(op, Wrap(Minimal(l), Prec(op)), Wrap(Minimal(r), Prec(op) + 1))
  }

  /** Every expression has a properly bracketed printing. */
  lemma {:induction false} MinimalIsBracketed(e: Expr)
    requires WellFormed(e)
    ensures Bracketed(Minimal(e)) && Meaning(Minimal(e)) == e
  {
    match e
    case Lit(_) =>
    case Bin(op, l, r) =>
      MinimalIsBracketed(l);
      MinimalIsBracketed(r);
  }

  lemma {:induction false} BracketedMeansWellFormed(p: Infix)
    requires Bracketed(p)
    ensures WellFormed(Meaning(p))
  {
    match p
    case Number(_) =>
    case Paren(q) => BracketedMeansWellFormed(q);
    case Binary(op, l, r) =>
      BracketedMeansWellFormed(l);
      BracketedMeansWellFormed(r);
  }
}
