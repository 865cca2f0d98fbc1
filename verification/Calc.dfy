/** The calculator: shunting-yard translation to postfix, and the checked stack machine. */
module Calc {
  import opened Basics
  import opened CalcTokens
  import opened CalcSyntax

  // ---- Shunting yard; the top of the operator stack is its last element ----

  predicate HoldsOp(ops: seq<Tok>, p: int) {
    ops != [] && ops[|ops| - 1].Op? && Prec(ops[|ops| - 1].op) >= p
  }

  /** Move operators of precedence at least `p` from the stack to the output. */
  function PopOps(p: int, ops: seq<Tok>, out: seq<Tok>): (seq<Tok>, seq<Tok>) {
    if HoldsOp(ops, p) then PopOps(p, ops[..|ops| - 1], out + [ops[|ops| - 1]]) else (ops, out)
  }

  /** Move tokens to the output up to and including the nearest `(`, which is dropped. */
  function PopToParen(ops: seq<Tok>, out: seq<Tok>): (seq<Tok>, seq<Tok>) {
    if ops == [] then (ops, out)
    else if ops[|ops| - 1] == LParen then (ops[..|ops| - 1], out)
    else PopToParen(ops[..|ops| - 1], out + [ops[|ops| - 1]])
  }

  function Shunt(t: Tok, ops: seq<Tok>, out: seq<Tok>): (seq<Tok>, seq<Tok>) {
    match t
    case Num(_) => (ops, out + [t])
    case Op(o) => var r := PopOps(Prec(o), ops, out); (r.0 + [t], r.1)
    case LParen => (ops + [t], out)
    case RParen => PopToParen(ops, out)
  }

  function ShuntAll(ts: seq<Tok>, ops: seq<Tok>, out: seq<Tok>): (seq<Tok>, seq<Tok>) {
    if ts == [] then (ops, out) else var r := Shunt(ts[0], ops, out); ShuntAll(ts[1..], r.0, r.1)
  }

  /** Empty the stack at the end of the input. */
  function Drain(ops: seq<Tok>, out: seq<Tok>): Result<seq<Tok>, CalcError> {
    if ops == [] then Ok(out)
    else if ops[|ops| - 1].LParen? || ops[|ops| - 1].RParen? then Err(MismatchedParens)
    else Drain(ops[..|ops| - 1], out + [ops[|ops| - 1]])
  }

  function ToPostfix(ts: seq<Tok>): Result<seq<Tok>, CalcError> {
    var r := ShuntAll(ts, [], []); Drain(r.0, r.1)
  }

  method ShuntingYard(tokens: seq<Tok>) returns (r: Result<seq<Tok>, CalcError>)
    ensures r == ToPostfix(tokens)
  {
    var output: seq<Tok>, ops: seq<Tok> := [], [];
    assert tokens[0..] == tokens;
    for i := 0 to |tokens|
      invariant ShuntAll(tokens, [], []) == ShuntAll(tokens[i..], ops, output)
    {
      var t := tokens[i];
      assert tokens[i..][1..] == tokens[i + 1..];
      ghost var expected := Shunt(t, ops, output);
      match t
      case Num(_) =>
        output := output + [t];
      case Op(o) =>
        while ops != [] && ops[|ops| - 1].Op?
          invariant PopOps(Prec(o), ops, output) == (expected.0[..|expected.0| - 1], expected.1)
          invariant expected.0 != [] && expected.0[|expected.0| - 1] == t
          decreases |ops|
        {
          if Prec(ops[|ops| - 1].op) >= Prec(o) {
            output := output + [ops[|ops| - 1]];
            ops := ops[..|ops| - 1];
          } else {
            break;
          }
        }
        ops := ops + [t];
      case LParen =>
        ops := ops + [t];
      case RParen =>
        while ops != []
          invariant PopToParen(ops, output) == expected
          decreases |ops|
        {
          var op := ops[|ops| - 1];
          ops := ops[..|ops| - 1];
          if op == LParen {
            break;
          }
          output := output + [op];
        }
      assert (ops, output) == expected;
    }
    while ops != []
      invariant ToPostfix(tokens) == Drain(ops, output)
      decreases |ops|
    {
      var op := ops[|ops| - 1];
      if op.LParen? || op.RParen? {
        return Err(MismatchedParens);
      }
      ops := ops[..|ops| - 1];
      output := output + [op];
    }
    return Ok(output);
  }

  // ---- The stack machine ----

  function Rpn(ts: seq<Tok>, stack: seq<I64>): Result<seq<I64>, CalcError>
    decreases |ts|
  {
    if ts == [] then Ok(stack)
    else match ts[0]
      case Num(n) => Rpn(ts[1..], stack + [n])
      case Op(op) =>
        if |stack| < 2 then Err(StackUnderflow)
        else
          var v := Apply(op, stack[|stack| - 2], stack[|stack| - 1]);
          if v.None? then Err(OverflowOrDivZero) else Rpn(ts[1..], stack[..|stack| - 2] + [v.value])
      case _ => Err(BadRpn)
  }

  function RpnValue(ts: seq<Tok>): Result<I64, CalcError> {
    match Rpn(ts, [])
    case Ok(stack) => if |stack| == 1 then Ok(stack[0]) else Err(BadExpression)
    case Err(e) => Err(e)
  }

  method EvalRpn(tokens: seq<Tok>) returns (r: Result<I64, CalcError>)
    ensures r == RpnValue(tokens)
  {
    var stack: seq<I64> := [];
    assert tokens[0..] == tokens;
    for i := 0 to |tokens|
      invariant Rpn(tokens, []) == Rpn(tokens[i..], stack)
    {
      assert tokens[i..][1..] == tokens[i + 1..];
      match tokens[i]
      case Num(n) =>
        stack := stack + [n];
      case Op(op) =>
        ghost var before := stack;
        if stack == [] {
          return Err(StackUnderflow);
        }
        var b := stack[|stack| - 1];
        stack := stack[..|stack| - 1];
        if stack == [] {
          return Err(StackUnderflow);
        }
        var a := stack[|stack| - 1];
        stack := stack[..|stack| - 1];
        assert stack == before[..|before| - 2];
        var v := Apply(op, a, b);
        if v.None? {
          return Err(OverflowOrDivZero);
        }
        stack := stack + [v.value];
      case _ =>
        return Err(BadRpn);
    }
    if |stack| != 1 {
      return Err(BadExpression);
    }
    return Ok(stack[0]);
  }

  function EvalText(s: seq<Byte>): Result<I64, CalcError> {
    match Lex(s, None)
    case Err(e) => Err(e)
    case Ok(ts) =>
      match ToPostfix(ts)
      case Err(e) => Err(e)
      case Ok(rpn) => RpnValue(rpn)
  }

  method Eval(input: seq<Byte>) returns (r: Result<I64, CalcError>)
    ensures r == EvalText(input)
  {
    var tokens := Tokenize(input);
    if tokens.Err? {
      return Err(tokens.error);
    }
    var rpn := ShuntingYard(tokens.value);
    if rpn.Err? {
      return Err(rpn.error);
    }
    r := EvalRpn(rpn.value);
  }

  // ---- The translation is correct: generalised over the operator stack and the output ----

  /** What the translation of `p` has put out by the time all of `p` is read. */
  function Emitted(p: Infix): seq<Tok> {
    match p
    case Number(n) => [Num(n)]
    case Paren(q) => Postfix(Meaning(q))
    case Binary(op, l, r) => Postfix(Meaning(l)) + Emitted(r)
  }

  /** The operators of `p` still on the stack at that moment, innermost last. */
  function Held(p: Infix): seq<Tok> {
    if p.Binary? then [Op(p.op)] + Held(p.right) else []
  }

  function Reversed(s: seq<Tok>): seq<Tok> {
    if s == [] then [] else Reversed(s[1..]) + [s[0]]
  }

  lemma {:induction false} ReversedLast(s: seq<Tok>)
    requires s != []
    ensures Reversed(s) == [s[|s| - 1]] + Reversed(s[..|s| - 1])
  {
    if |s| == 1 {
      assert s[1..] == [] && s[..0] == [];
    } else {
      ReversedLast(s[1..]);
      assert s[1..][..|s| - 2] == s[..|s| - 1][1..];
    }
  }

  lemma {:induction false} EmittedThenHeld(p: Infix)
    ensures Emitted(p) + Reversed(Held(p)) == Postfix(Meaning(p))
  {
    match p
    case Number(_) =>
    case Paren(q) =>
    case Binary(op, l, r) =>
      EmittedThenHeld(r);
      assert Held(p)[1..] == Held(r);
      assert Emitted(p) + Reversed(Held(p)) == Postfix(Meaning(l)) + (Emitted(r) + Reversed(Held(r))) + [Op(op)];
  }

  lemma {:induction false} HeldAreOps(p: Infix)
    requires Bracketed(p)
    ensures forall i :: 0 <= i < |Held(p)| ==> Held(p)[i].Op? && Prec(Held(p)[i].op) >= Level(p)
  {
    if p.Binary? {
      HeldAreOps(p.right);
    }
  }

  /** Popping a run of operators of sufficient precedence empties exactly that run. */
  lemma {:induction false} PopsRun(p: int, ops: seq<Tok>, run: seq<Tok>, out: seq<Tok>)
    requires !HoldsOp(ops, p)
    requires forall i :: 0 <= i < |run| ==> run[i].Op? && Prec(run[i].op) >= p
    ensures PopOps(p, ops + run, out) == (ops, out + Reversed(run))
    decreases |run|
  {
    if run == [] {
      assert ops + run == ops && out + [] == out;
    } else {
      var top, rest := run[|run| - 1], run[..|run| - 1];
      assert (ops + run)[..|ops + run| - 1] == ops + rest;
      PopsRun(p, ops, rest, out + [top]);
      ReversedLast(run);
      assert out + [top] + Reversed(rest) == out + ([top] + Reversed(rest));
    }
  }

  lemma {:induction false} PopsToParen(ops: seq<Tok>, run: seq<Tok>, out: seq<Tok>)
    requires forall i :: 0 <= i < |run| ==> run[i].Op?
    ensures PopToParen(ops + [LParen] + run, out) == (ops, out + Reversed(run))
    decreases |run|
  {
    var all := ops + [LParen] + run;
    if run == [] {
      assert all[..|all| - 1] == ops && out + [] == out;
    } else {
      var top, rest := run[|run| - 1], run[..|run| - 1];
      assert all[..|all| - 1] == ops + [LParen] + rest;
      PopsToParen(ops, rest, out + [top]);
      ReversedLast(run);
      assert out + [top] + Reversed(rest) == out + ([top] + Reversed(rest));
    }
  }

  lemma {:induction false} DrainsRun(run: seq<Tok>, out: seq<Tok>)
    requires forall i :: 0 <= i < |run| ==> run[i].Op?
    ensures Drain(run, out) == Ok(out + Reversed(run))
    decreases |run|
  {
    if run == [] {
      assert out + [] == out;
    } else {
      var top, rest := run[|run| - 1], run[..|run| - 1];
      DrainsRun(rest, out + [top]);
      ReversedLast(run);
      assert out + [top] + Reversed(rest) == out + ([top] + Reversed(rest));
    }
  }

  lemma {:induction false} ShuntAllSplits(a: seq<Tok>, b: seq<Tok>, ops: seq<Tok>, out: seq<Tok>)
    ensures ShuntAll(a + b, ops, out) == (var r := ShuntAll(a, ops, out); ShuntAll(b, r.0, r.1))
    decreases |a|
  {
    if a == [] {
      assert a + b == b;
    } else {
      assert (a + b)[1..] == a[1..] + b;
      var r := Shunt(a[0], ops, out);
      ShuntAllSplits(a[1..], b, r.0, r.1);
    }
  }

  /** Reading a printed expression under any stack whose top binds less tightly than it:
      its tokens arrive in postfix order, apart from the operators it still holds. */
  lemma {:induction false} Translates(p: Infix, ops: seq<Tok>, out: seq<Tok>)
    requires Bracketed(p) && !HoldsOp(ops, Level(p))
    ensures ShuntAll(Print(p), ops, out) == (ops + Held(p), out + Emitted(p))
    decreases p, 1
  {
    match p
    case Number(n) =>
      assert Print(p)[1..] == [] && ops + [] == ops;
    case Paren(q) =>
      TranslatesParen(p, ops, out);
    case Binary(op, l, r) =>
      TranslatesBinary(p, ops, out);
  }

  lemma {:induction false} TranslatesParen(p: Infix, ops: seq<Tok>, out: seq<Tok>)
    requires Bracketed(p) && p.Paren?
    ensures ShuntAll(Print(p), ops, out) == (ops + Held(p), out + Emitted(p))
    decreases p, 0
  {
    hide Print, Held, Emitted, Meaning, Postfix, Shunt, ShuntAll, PopToParen;
    var q := p.inner;
    var inside := ops + [LParen];
    Translates(q, inside, out);
    HeldAreOps(q);
    PopsToParen(ops, Held(q), out + Emitted(q));
    EmittedThenHeld(q);
    assert out + Emitted(q) + Reversed(Held(q)) == out + (Emitted(q) + Reversed(Held(q)));
    ShuntAllFirst(LParen, Print(q) + [RParen], ops, out);
    ShuntAllSplits(Print(q), [RParen], inside, out);
    ShuntsOne(LParen, ops, out);
    ShuntsOne(RParen, inside + Held(q), out + Emitted(q));
    ParenParts(p, ops);
  }

  lemma ShuntsOne(t: Tok, ops: seq<Tok>, out: seq<Tok>)
    ensures ShuntAll([t], ops, out) == Shunt(t, ops, out)
    ensures t == RParen ==> Shunt(t, ops, out) == PopToParen(ops, out)
    ensures t == LParen ==> Shunt(t, ops, out) == (ops + [LParen], out)
  {
    hide PopToParen;
    assert [t][1..] == [];
  }

  lemma ParenParts(p: Infix, ops: seq<Tok>)
    requires p.Paren?
    ensures Print(p) == [LParen] + (Print(p.inner) + [RParen])
    ensures ops + Held(p) == ops && Emitted(p) == Postfix(Meaning(p.inner))
  {
    hide Postfix, Meaning;
  }

  lemma {:induction false} TranslatesBinary(p: Infix, ops: seq<Tok>, out: seq<Tok>)
    requires Bracketed(p) && p.Binary? && !HoldsOp(ops, Level(p))
    ensures ShuntAll(Print(p), ops, out) == (ops + Held(p), out + Emitted(p))
    decreases p, 0
  {
    hide Print, Held, Emitted, Meaning, Postfix, Shunt, ShuntAll;
    var op, l, r := p.op, p.left, p.right;
    var ops1, out1 := ops + [Op(op)], out + Postfix(Meaning(l));
    WeakerTop(ops, Prec(op), Level(l));
    Translates(l, ops, out);
    FlushesLeft(l, op, ops, out);
    Translates(r, ops1, out1);
    BinaryParts(p, ops, out);
    ShuntAllSplits(Print(l), [Op(op)] + Print(r), ops, out);
    ShuntAllFirst(Op(op), Print(r), ops + Held(l), out + Emitted(l));
  }

  lemma WeakerTop(ops: seq<Tok>, p: int, q: int)
    requires !HoldsOp(ops, p) && p <= q
    ensures !HoldsOp(ops, q)
  {
  }

  lemma ShuntAllFirst(t: Tok, ts: seq<Tok>, ops: seq<Tok>, out: seq<Tok>)
    ensures ShuntAll([t] + ts, ops, out) == (var r := Shunt(t, ops, out); ShuntAll(ts, r.0, r.1))
  {
    hide Shunt;
    assert ([t] + ts)[1..] == ts;
  }

  /** The tokens of a binary print, and what is emitted and held, in their parts. */
  lemma BinaryParts(p: Infix, ops: seq<Tok>, out: seq<Tok>)
    requires p.Binary?
    ensures Print(p) == Print(p.left) + ([Op(p.op)] + Print(p.right))
    ensures ops + Held(p) == ops + [Op(p.op)] + Held(p.right)
    ensures out + Emitted(p) == out + Postfix(Meaning(p.left)) + Emitted(p.right)
  {
    hide Postfix, Meaning;
  }

  /** The operator after a left operand pushes out everything the operand still held. */
  lemma FlushesLeft(l: Infix, op: Byte, ops: seq<Tok>, out: seq<Tok>)
    requires Bracketed(l) && Level(l) >= Prec(op) && !HoldsOp(ops, Prec(op))
    ensures Shunt(Op(op), ops + Held(l), out + Emitted(l)) == (ops + [Op(op)], out + Postfix(Meaning(l)))
  {
    hide Held, Emitted, Meaning, Postfix, PopOps;
    HeldAreOps(l);
    PopsRun(Prec(op), ops, Held(l), out + Emitted(l));
    EmittedThenHeld(l);
    assert out + Emitted(l) + Reversed(Held(l)) == out + (Emitted(l) + Reversed(Held(l)));
  }

  /** Every properly bracketed printing of an expression, with or without extra parentheses,
      is translated to exactly the expression's postfix form. */
  lemma ShuntingYardIsCorrect(p: Infix)
    requires Bracketed(p)
    ensures ToPostfix(Print(p)) == Ok(Postfix(Meaning(p)))
  {
    Translates(p, [], []);
    assert [] + Held(p) == Held(p) && [] + Emitted(p) == Emitted(p);
    HeldAreOps(p);
    DrainsRun(Held(p), Emitted(p));
    EmittedThenHeld(p);
  }

  // ---- The stack machine is correct ----

  /** Running the postfix form pushes the checked value, or stops with the arithmetic error. */
  lemma {:induction false} RpnIsCorrect(e: Expr, rest: seq<Tok>, stack: seq<I64>)
    ensures Rpn(Postfix(e) + rest, stack) ==
      if Value(e).None? then Err(OverflowOrDivZero) else Rpn(rest, stack + [Value(e).value])
  {
    match e
    case Lit(n) =>
      assert (Postfix(e) + rest)[1..] == rest;
    case Bin(op, l, r) =>
      var after := [Op(op)] + rest;
      assert Postfix(e) + rest == Postfix(l) + (Postfix(r) + after);
      RpnIsCorrect(l, Postfix(r) + after, stack);
      if Value(l).Some? {
        var stack1 := stack + [Value(l).value];
        RpnIsCorrect(r, after, stack1);
        if Value(r).Some? {
          var stack2 := stack1 + [Value(r).value];
          assert stack2[..|stack2| - 2] == stack && after[1..] == rest;
        }
      }
  }

  /** Parsing and running a printed expression gives its exact value, or the arithmetic error
      exactly when one of its operations faults. */
  lemma PrintedValue(p: Infix)
    requires Bracketed(p)
    ensures ToPostfix(Print(p)).Ok?
    ensures RpnValue(ToPostfix(Print(p)).value) ==
      if Faults(Meaning(p)) then Err(OverflowOrDivZero) else Ok(Exact(Meaning(p)))
  {
    ShuntingYardIsCorrect(p);
    var e := Meaning(p);
    RpnIsCorrect(e, [], []);
    assert Postfix(e) + [] == Postfix(e);
    BracketedMeansWellFormed(p);
    CheckedIsExact(e);
  }

  /** Two bracketed printings with the same tokens mean the same expression. */
  lemma PrintingIsUnambiguous(p: Infix, q: Infix)
    requires Bracketed(p) && Bracketed(q) && Print(p) == Print(q)
    ensures Meaning(p) == Meaning(q)
  {
    ShuntingYardIsCorrect(p);
    ShuntingYardIsCorrect(q);
    Unpostfixed(Meaning(p), [], []);
    Unpostfixed(Meaning(q), [], []);
    assert Postfix(Meaning(p)) + [] == Postfix(Meaning(p)) && Postfix(Meaning(q)) + [] == Postfix(Meaning(q));
    assert ([] + [Meaning(p)])[0] == ([] + [Meaning(q)])[0];
  }

  /** The stack machine run on trees instead of numbers. */
  function Rebuild(ts: seq<Tok>, stack: seq<Expr>): seq<Expr>
    decreases |ts|
  {
    if ts == [] then stack
    else match ts[0]
      case Num(n) => Rebuild(ts[1..], stack + [Lit(n)])
      case Op(op) =>
        if |stack| < 2 then []
        else Rebuild(ts[1..], stack[..|stack| - 2] + [Bin(op, stack[|stack| - 2], stack[|stack| - 1])])
      case _ => []
  }

  lemma {:induction false} Unpostfixed(e: Expr, rest: seq<Tok>, stack: seq<Expr>)
    ensures Rebuild(Postfix(e) + rest, stack) == Rebuild(rest, stack + [e])
  {
    match e
    case Lit(n) =>
      assert (Postfix(e) + rest)[1..] == rest;
    case Bin(op, l, r) =>
      var after := [Op(op)] + rest;
      assert Postfix(e) + rest == Postfix(l) + (Postfix(r) + after);
      Unpostfixed(l, Postfix(r) + after, stack);
      Unpostfixed(r, after, stack + [l]);
      var stack2 := stack + [l] + [r];
      assert stack2[..|stack2| - 2] == stack && after[1..] == rest;
  }

  // ---- From text to value ----

  /** Operands stand where operands may, and operators and `)` where they may. */
  predicate Alternates(ts: seq<Tok>, prev: Option<Tok>) {
    ts == [] || (((ts[0].Num? || ts[0].LParen?) == SignPosition(prev)) && Alternates(ts[1..], Some(ts[0])))
  }

  lemma {:induction false} AlternatesConcat(a: seq<Tok>, b: seq<Tok>, prev: Option<Tok>)
    requires Alternates(a, prev) && a != [] && Alternates(b, Last(a))
    ensures Alternates(a + b, prev)
    decreases |a|
  {
    assert (a + b)[1..] == a[1..] + b;
    if |a| > 1 {
      AlternatesConcat(a[1..], b, Some(a[0]));
    } else {
      assert a[1..] + b == b;
    }
  }

  lemma {:induction false} PrintAlternates(p: Infix, prev: Option<Tok>)
    requires Bracketed(p) && SignPosition(prev)
    ensures Alternates(Print(p), prev) && !SignPosition(Last(Print(p)))
  {
    match p
    case Number(n) =>
      assert Print(p)[1..] == [];
    case Paren(q) =>
      var open, close: seq<Tok> := [LParen], [RParen];
      PrintAlternates(q, Some(LParen));
      assert open[1..] == [] && close[1..] == [];
      AlternatesConcat(open, Print(q), prev);
      assert Last(open + Print(q)) == Last(Print(q));
      AlternatesConcat(open + Print(q), close, prev);
    case Binary(op, l, r) =>
      var mid := [Op(op)];
      PrintAlternates(l, prev);
      PrintAlternates(r, Some(Op(op)));
      assert mid[1..] == [];
      AlternatesConcat(Print(l), mid, prev);
      assert Last(Print(l) + mid) == Some(Op(op));
      AlternatesConcat(Print(l) + mid, Print(r), prev);
      assert Last(Print(p)) == Last(Print(r));
  }

  /** White space and spelling alone make a text, when the tokens alternate. */
  ghost predicate Spaced(ls: seq<Lexeme>) {
    forall i :: 0 <= i < |ls| ==> AllSpace(ls[i].gap) && Spells(ls[i].text, ls[i].tok)
  }

  lemma {:induction false} AlternatingIsLaidOut(ls: seq<Lexeme>, prev: Option<Tok>)
    requires Spaced(ls) && Alternates(Toks(ls), prev)
    ensures LaidOut(ls, prev)
  {
    if ls != [] {
      assert Toks(ls)[1..] == Toks(ls[1..]);
      AlternatingIsLaidOut(ls[1..], Some(ls[0].tok));
    }
  }

  /** The calculator's promise: for every expression, every bracketed printing of it, every spelling
      of its numbers and any white space around the tokens, `eval` returns the exact value, or the
      arithmetic error exactly when an operation overflows or divides by zero. */
  lemma EvalOfPrintedText(p: Infix, ls: seq<Lexeme>, tail: seq<Byte>)
    requires Bracketed(p) && Spaced(ls) && AllSpace(tail) && Toks(ls) == Print(p)
    ensures EvalText(Text(ls, tail)) == if Faults(Meaning(p)) then Err(OverflowOrDivZero) else Ok(Exact(Meaning(p)))
  {
    PrintAlternates(p, None);
    AlternatingIsLaidOut(ls, None);
    LexAccepts(ls, tail, None);
    PrintedValue(p);
  }

  function Spelling(t: Tok): seq<Byte> {
    match t
    case Num(n) => Literal(n)
    case Op(o) => [o]
    case LParen => [OPEN]
    case RParen => [CLOSE]
  }

  /** Tokens spelled in the usual way, with no white space. */
  function Plain(ts: seq<Tok>): (ls: seq<Lexeme>)
    ensures Toks(ls) == ts
  {
    if ts == [] then [] else [Lexeme([], Spelling(ts[0]), ts[0])] + Plain(ts[1..])
  }

  lemma {:induction false} PlainIsSpaced(ts: seq<Tok>)
    requires forall i :: 0 <= i < |ts| && ts[i].Op? ==> IsOperator(ts[i].op)
    ensures Spaced(Plain(ts))
  {
    if ts != [] {
      PlainIsSpaced(ts[1..]);
      if ts[0].Num? {
        LiteralSpells(ts[0].n);
      }
    }
  }

  lemma {:induction false} PrintsOperators(p: Infix)
    requires Bracketed(p)
    ensures forall i :: 0 <= i < |Print(p)| && Print(p)[i].Op? ==> IsOperator(Print(p)[i].op)
  {
    match p
    case Number(_) =>
    case Paren(q) => PrintsOperators(q);
    case Binary(op, l, r) =>
      PrintsOperators(l);
      PrintsOperators(r);
  }

  /** Write any expression down with as few parentheses as possible: `eval` gives its value. */
  lemma EvalOfMinimalText(e: Expr)
    requires WellFormed(e)
    ensures EvalText(Text(Plain(Print(Minimal(e))), [])) == if Faults(e) then Err(OverflowOrDivZero) else Ok(Exact(e))
  {
    MinimalIsBracketed(e);
    PrintsOperators(Minimal(e));
    PlainIsSpaced(Print(Minimal(e)));
    EvalOfPrintedText(Minimal(e), Plain(Print(Minimal(e))), []);
  }

  // ---- Any input: what the translation keeps, and when it refuses ----

  function Operands(ts: seq<Tok>): seq<Tok> {
    if ts == [] then [] else (if ts[0].Num? then [ts[0]] else []) + Operands(ts[1..])
  }

  /** How often the operator `o` occurs. */
  function Count(ts: seq<Tok>, o: Byte): nat {
    if ts == [] then 0 else (if ts[0] == Op(o) then 1 else 0) + Count(ts[1..], o)
  }

  /** The number of `(` not yet closed; an unmatched `)` is ignored. */
  function OpenParens(ts: seq<Tok>, depth: nat): nat {
    if ts == [] then depth
    else OpenParens(ts[1..], if ts[0].LParen? then depth + 1 else if ts[0].RParen? && depth > 0 then depth - 1
      else depth)
  }

  function CountParens(ops: seq<Tok>): nat {
    if ops == [] then 0 else CountParens(ops[..|ops| - 1]) + if ops[|ops| - 1].LParen? then 1 else 0
  }

  lemma {:induction false} OperandsConcat(a: seq<Tok>, b: seq<Tok>, o: Byte)
    ensures Operands(a + b) == Operands(a) + Operands(b)
    ensures Count(a + b, o) == Count(a, o) + Count(b, o)
  {
    if a == [] {
      assert a + b == b;
    } else {
      var first := if a[0].Num? then [a[0]] else [];
      assert (a + b)[0] == a[0] && (a + b)[1..] == a[1..] + b;
      OperandsConcat(a[1..], b, o);
      assert first + (Operands(a[1..]) + Operands(b)) == first + Operands(a[1..]) + Operands(b);
    }
  }

  /** The stack holds only operators and `(`, so nothing but parentheses is ever lost. */
  ghost predicate OnlyOpsAndOpens(ops: seq<Tok>) {
    forall i :: 0 <= i < |ops| ==> ops[i].Op? || ops[i].LParen?
  }

  ghost predicate NoParens(out: seq<Tok>) {
    forall i :: 0 <= i < |out| ==> out[i].Num? || out[i].Op?
  }

  /** Moving the top operator to the output keeps everything in view. */
  lemma MoveTop(ops: seq<Tok>, out: seq<Tok>, o: Byte)
    requires ops != [] && OnlyOpsAndOpens(ops) && NoParens(out)
    ensures var top, rest := ops[|ops| - 1], ops[..|ops| - 1];
      && OnlyOpsAndOpens(rest)
      && (top.Op? ==>
        && NoParens(out + [top])
        && Operands(out + [top]) == Operands(out)
        && Count(out + [top], o) + Count(rest, o) == Count(out, o) + Count(ops, o))
      && (top.LParen? ==> Count(rest, o) == Count(ops, o))
  {
    var top, rest := ops[|ops| - 1], ops[..|ops| - 1];
    assert ops == rest + [top];
    OperandsConcat(rest, [top], o);
    OperandsConcat(out, [top], o);
    assert [top][1..] == [];
  }

  /** `r` is `(ops, out)` after moving some operators, with `closed` parentheses dropped. */
  ghost predicate Conserves(ops: seq<Tok>, out: seq<Tok>, r: (seq<Tok>, seq<Tok>), closed: nat, o: Byte) {
    && OnlyOpsAndOpens(r.0) && NoParens(r.1)
    && Operands(r.1) == Operands(out)
    && Count(r.1, o) + Count(r.0, o) == Count(out, o) + Count(ops, o)
    && CountParens(r.0) + closed == CountParens(ops)
  }

  lemma {:induction false} PopOpsConserves(p: int, ops: seq<Tok>, out: seq<Tok>, o: Byte)
    requires OnlyOpsAndOpens(ops) && NoParens(out)
    ensures Conserves(ops, out, PopOps(p, ops, out), 0, o)
    decreases |ops|
  {
    if HoldsOp(ops, p) {
      MoveTop(ops, out, o);
      PopOpsConserves(p, ops[..|ops| - 1], out + [ops[|ops| - 1]], o);
    }
  }

  lemma {:induction false} PopToParenConserves(ops: seq<Tok>, out: seq<Tok>, o: Byte)
    requires OnlyOpsAndOpens(ops) && NoParens(out)
    ensures Conserves(ops, out, PopToParen(ops, out), if CountParens(ops) > 0 then 1 else 0, o)
    decreases |ops|
  {
    if ops != [] {
      MoveTop(ops, out, o);
      if ops[|ops| - 1] != LParen {
        PopToParenConserves(ops[..|ops| - 1], out + [ops[|ops| - 1]], o);
      }
    }
  }

  /** From `(ops, out)`, reading `ts` and reaching `r` accounts for every token read,
      and the parentheses open are the ones on the stack. */
  ghost predicate Accounts(ts: seq<Tok>, ops: seq<Tok>, out: seq<Tok>, r: (seq<Tok>, seq<Tok>), o: Byte) {
    && OnlyOpsAndOpens(r.0) && NoParens(r.1)
    && Operands(r.1) == Operands(out) + Operands(ts)
    && Count(r.1, o) + Count(r.0, o) == Count(out, o) + Count(ops, o) + Count(ts, o)
    && CountParens(r.0) == OpenParens(ts, CountParens(ops))
  }

  lemma CountParensPush(ops: seq<Tok>, t: Tok)
    ensures CountParens(ops + [t]) == CountParens(ops) + if t.LParen? then 1 else 0
  {
    assert (ops + [t])[..|ops|] == ops;
  }

  lemma ShuntConserves(t: Tok, ops: seq<Tok>, out: seq<Tok>, o: Byte)
    requires OnlyOpsAndOpens(ops) && NoParens(out)
    ensures Accounts([t], ops, out, Shunt(t, ops, out), o)
  {
    var one := [t];
    assert one[1..] == [];
    assert OpenParens(one, CountParens(ops)) ==
      if t.LParen? then CountParens(ops) + 1 else if t.RParen? && CountParens(ops) > 0 then CountParens(ops) - 1
        else CountParens(ops);
    match t
    case Num(_) =>
      OperandsConcat(out, one, o);
    case Op(op) =>
      var r := PopOps(Prec(op), ops, out);
      PopOpsConserves(Prec(op), ops, out, o);
      OperandsConcat(r.0, one, o);
      CountParensPush(r.0, t);
    case LParen =>
      OperandsConcat(ops, one, o);
      CountParensPush(ops, t);
    case RParen =>
      PopToParenConserves(ops, out, o);
  }

  lemma AccountsCompose(t: Tok, ts: seq<Tok>, ops: seq<Tok>, out: seq<Tok>, r: (seq<Tok>, seq<Tok>),
      q: (seq<Tok>, seq<Tok>), o: Byte)
    requires Accounts([t], ops, out, r, o) && Accounts(ts, r.0, r.1, q, o)
    ensures Accounts([t] + ts, ops, out, q, o)
  {
    OperandsConcat([t], ts, o);
    assert ([t] + ts)[1..] == ts && [t][1..] == [];
    assert OpenParens([t] + ts, CountParens(ops)) == OpenParens(ts, OpenParens([t], CountParens(ops)));
    assert Operands(out) + Operands([t]) + Operands(ts) == Operands(out) + (Operands([t]) + Operands(ts));
  }

  lemma {:induction false} ShuntAllConserves(ts: seq<Tok>, ops: seq<Tok>, out: seq<Tok>, o: Byte)
    requires OnlyOpsAndOpens(ops) && NoParens(out)
    ensures Accounts(ts, ops, out, ShuntAll(ts, ops, out), o)
    decreases |ts|
  {
    if ts != [] {
      var r := Shunt(ts[0], ops, out);
      ShuntConserves(ts[0], ops, out, o);
      ShuntAllConserves(ts[1..], r.0, r.1, o);
      AccountsCompose(ts[0], ts[1..], ops, out, r, ShuntAll(ts, ops, out), o);
      assert [ts[0]] + ts[1..] == ts;
    }
  }

  lemma {:induction false} DrainConserves(ops: seq<Tok>, out: seq<Tok>, o: Byte)
    requires OnlyOpsAndOpens(ops) && NoParens(out)
    ensures Drain(ops, out).Ok? <==> CountParens(ops) == 0
    ensures Drain(ops, out).Ok? ==>
      var r := Drain(ops, out).value;
      NoParens(r) && Operands(r) == Operands(out) && Count(r, o) == Count(out, o) + Count(ops, o)
    decreases |ops|
  {
    if ops != [] {
      MoveTop(ops, out, o);
      if ops[|ops| - 1].Op? {
        DrainConserves(ops[..|ops| - 1], out + [ops[|ops| - 1]], o);
      }
    }
  }

  /** For every token list: translation fails exactly when a `(` is left open; otherwise the output
      has the same numbers in the same order, the same operators, and no parentheses. */
  lemma ToPostfixConserves(ts: seq<Tok>, o: Byte)
    ensures ToPostfix(ts).Err? <==> OpenParens(ts, 0) > 0
    ensures ToPostfix(ts).Ok? ==>
      var out := ToPostfix(ts).value;
      NoParens(out) && Operands(out) == Operands(ts) && Count(out, o) == Count(ts, o)
  {
    ShuntAllConserves(ts, [], [], o);
    var r := ShuntAll(ts, [], []);
    DrainConserves(r.0, r.1, o);
  }

  /** The error `bad rpn` of the stack machine cannot reach a user. */
  lemma EvalNeverBadRpn(s: seq<Byte>)
    ensures EvalText(s) != Err(BadRpn)
  {
    var ts := Lex(s, None);
    if ts.Ok? {
      ToPostfixConserves(ts.value, PLUS);
      var r := ShuntAll(ts.value, [], []);
      DrainError(r.0, r.1);
      if ToPostfix(ts.value).Ok? {
        NoBadRpn(ToPostfix(ts.value).value, []);
      }
    } else {
      LexErrors(s, None);
    }
  }

  lemma {:induction false} DrainError(ops: seq<Tok>, out: seq<Tok>)
    ensures Drain(ops, out).Err? ==> Drain(ops, out).error == MismatchedParens
    decreases |ops|
  {
    if ops != [] {
      DrainError(ops[..|ops| - 1], out + [ops[|ops| - 1]]);
    }
  }

  lemma {:induction false} LexErrors(s: seq<Byte>, prev: Option<Tok>)
    ensures Lex(s, prev).Err? ==> Lex(s, prev).error == BadNumber || Lex(s, prev).error == InvalidToken
    decreases |s|
  {
    if s != [] {
      if IsSpace(s[0]) {
        LexErrors(s[1..], prev);
      } else if StartsNumber(s[0], prev) {
        var n := 1 + DigitRun(s[1..]);
        var v := ParseI64(s[..n]);
        if v.Some? {
          LexErrors(s[n..], Some(Num(v.value)));
        }
      } else if TokenOf(s[0]).Some? {
        LexErrors(s[1..], TokenOf(s[0]));
      }
    }
  }

  lemma {:induction false} NoBadRpn(ts: seq<Tok>, stack: seq<I64>)
    requires NoParens(ts)
    ensures Rpn(ts, stack) != Err(BadRpn)
    decreases |ts|
  {
    if ts != [] {
      match ts[0]
      case Num(n) => NoBadRpn(ts[1..], stack + [n]);
      case Op(op) =>
        if |stack| >= 2 {
          var v := Apply(op, stack[|stack| - 2], stack[|stack| - 1]);
          if v.Some? {
            NoBadRpn(ts[1..], stack[..|stack| - 2] + [v.value]);
          }
        }
    }
  }
}
