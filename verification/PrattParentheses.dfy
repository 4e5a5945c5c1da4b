/** What becomes of a printed tree (src/parser/parser.c) when a pair of parentheses is dropped. */
module PrattParentheses {
  import opened Wrappers
  import opened ExpressionGrammar
  import opened PrattParser
  import opened PrattPrinted
  import opened PrattSteps
  import opened PrattRoundTrip

  /** The printed form of `(l) op r` without the pair around its left operand. */
  function LeftBare(op: Op, l: Expr, r: Expr): Tokens {
    Show(l, 1, [TOp(op)] + Show(r, RightLevel(op), [TEof]))
  }

  /** The tree that is read from the tokens of `l`, printed at level `m`, and of `op r` behind it: the operator goes
      down the right end of `l` as far as that draws it in. */
  function Rotated(op: Op, l: Expr, r: Expr, m: int): Expr {
    if Level(l) < m || OpPrecedence(op) < Stop(l) then Binary(op, l, r)
    else match l
      case Binary(op2, a, b) => Binary(op2, a, Rotated(op, b, r, RightLevel(op2)))
      case Not(x) => Not(Rotated(op, x, r, 3))
      case Between(x, low, high, isNot) => Between(x, low, Rotated(op, high, r, InnerLevel(isNot)), isNot)
      case _ => Binary(op, l, r)
  }

  /** The operator stands at `k`, and behind it `r` is read as far as `n`. */
  ghost predicate Follows(ts: Tokens, op: Op, r: Expr, k: nat, n: nat) {
    && Terminated(ts) && Has(ts, k, TOp(op)) && n < |ts| && Precedence(ts[n]) == 0
    && if op.LikeOp? then IsPrimary(ts, k + 1, r, n) && (r.Lit? ==> !r.v.LString?)
       else IsOperand(ts, k + 1, RightLevel(op), r, n)
  }

  /** The tree `l`, printed at level `m`, stands at `i` before `op` at `k`. */
  ghost predicate StandsBefore(ts: Tokens, i: nat, op: Op, l: Expr, r: Expr, m: int, k: nat, n: nat) {
    Printable(l) && Printed(ts, i, l, m) && k == i + Width(l, m) && Follows(ts, op, r, k, n)
  }

  lemma {:induction false} RotatedReads(ts: Tokens, i: nat, op: Op, l: Expr, r: Expr, m: int, min: int, k: nat, n: nat)
    requires (true <==> StandsBefore(ts, i, op, l, r, m, k, n)) && 1 <= min <= m <= OpPrecedence(op)
    ensures GoesOn(ts, i, min, Rotated(op, l, r, m), n)
    decreases l, 1
  {
    if Level(l) < m || OpPrecedence(op) < Stop(l) {
      PrecReads(ts, i, l, m, min, k);
      ThenBinary(ts, i, op, l, r, min, k, n);
    } else {
      assert PartsTo(ts, i, Layout(l), k);
      match l
      case Binary(op2, a, b) => BinaryRotated(ts, i, op, op2, a, b, r, min, k, n);
      case Not(x) => NotRotated(ts, i, op, x, r, min, k, n);
      case Between(x, low, high, isNot) => BetweenRotated(ts, i, op, x, low, high, isNot, r, min, k, n);
    }
  }

  /** An operand that ends at `k`, so that the operator there is drawn into it. */
  lemma {:induction false} EndRotated(ts: Tokens, i: nat, op: Op, l: Expr, r: Expr, m: int, k: nat, n: nat)
    requires (true <==> StandsBefore(ts, i, op, l, r, m, k, n)) && 1 <= m <= OpPrecedence(op)
    ensures IsOperand(ts, i, m, Rotated(op, l, r, m), n)
    decreases l, 2
  {
    RotatedReads(ts, i, op, l, r, m, m, k, n);
    OperandEnds(ts, i, Rotated(op, l, r, m), n, m);
  }

  lemma LastSub(ts: Tokens, i: nat, t: Token, x: Expr, min: int, k: nat)
    requires PartsTo(ts, i, Tok(t, Sub(x, min, End)), k)
    ensures Has(ts, i, t) && Printed(ts, i + 1, x, min) && k == i + 1 + Width(x, min)
  {
    FirstTok(ts, i, t, Sub(x, min, End), k);
    var e := FirstSub(ts, i + 1, x, min, End, k);
    NoMore(ts, e, k);
  }

  lemma {:induction false} BinaryRotated(ts: Tokens, i: nat, op: Op, op2: Op, a: Expr, b: Expr, r: Expr, min: int,
                                         k: nat, n: nat)
    requires (true <==> StandsBefore(ts, i, op, Binary(op2, a, b), r, OpPrecedence(op2), k, n))
    requires PartsTo(ts, i, Layout(Binary(op2, a, b)), k)
    requires 1 <= min <= OpPrecedence(op2) && Stop(Binary(op2, a, b)) <= OpPrecedence(op)
    ensures GoesOn(ts, i, min, Binary(op2, a, Rotated(op, b, r, RightLevel(op2))), n)
    decreases Binary(op2, a, b), 0
  {
    var j := LeftOfBinary(ts, i, op2, a, b, k);
    RightRotated(ts, j, op, op2, a, b, r, min, k, n);
    LeftThen(ts, i, a, OpPrecedence(op2), min, j, Binary(op2, a, Rotated(op, b, r, RightLevel(op2))), n);
  }

  lemma {:induction false} RightRotated(ts: Tokens, j: nat, op: Op, op2: Op, a: Expr, b: Expr, r: Expr, min: int,
                                        k: nat, n: nat)
    requires Printable(b) && (true <==> Follows(ts, op, r, k, n))
    requires PartsTo(ts, j, Tok(TOp(op2), Sub(b, RightLevel(op2), End)), k)
    requires min <= OpPrecedence(op2) && Stop(Binary(op2, a, b)) <= OpPrecedence(op)
    ensures Climbs(ts, j, a, min, Binary(op2, a, Rotated(op, b, r, RightLevel(op2))), n)
    decreases b, 3
  {
    LastSub(ts, j, TOp(op2), b, RightLevel(op2), k);
    EndRotated(ts, j + 1, op, b, r, RightLevel(op2), k, n);
    ClimbBinary(ts, j, op2, a, Rotated(op, b, r, RightLevel(op2)), n, min);
  }

  lemma {:induction false} NotRotated(ts: Tokens, i: nat, op: Op, x: Expr, r: Expr, min: int, k: nat, n: nat)
    requires (true <==> StandsBefore(ts, i, op, Not(x), r, 3, k, n)) && PartsTo(ts, i, Layout(Not(x)), k)
    requires 3 <= OpPrecedence(op)
    ensures GoesOn(ts, i, min, Not(Rotated(op, x, r, 3)), n)
    decreases Not(x), 0
  {
    LastSub(ts, i, TNot, x, 3, k);
    EndRotated(ts, i + 1, op, x, r, 3, k, n);
    PrimaryNot(ts, i, Rotated(op, x, r, 3), n);
    PrecOfPrimary(ts, i, Not(Rotated(op, x, r, 3)), n, min);
  }

  lemma {:induction false} BoundsRotated(ts: Tokens, k0: nat, op: Op, x: Expr, low: Expr, high: Expr, isNot: bool, r: Expr,
                                         min: int, k: nat, n: nat)
    requires (true <==> Negatable(ts, k0, isNot, TBetween, min)) && Printable(low) && Printable(high)
    requires PartsTo(ts, k0 + Extra(isNot) + 1, Bounds(low, high, InnerLevel(isNot)), k)
    requires (true <==> Follows(ts, op, r, k, n)) && InnerLevel(isNot) <= OpPrecedence(op)
    ensures Climbs(ts, k0, x, min, Between(x, low, Rotated(op, high, r, InnerLevel(isNot)), isNot), n)
    decreases high, 4
  {
    var j := LowReads(ts, k0 + Extra(isNot) + 1, low, high, InnerLevel(isNot), k);
    HighRotated(ts, k0, op, x, low, high, isNot, r, min, j, k, n);
  }

  lemma {:induction false} HighRotated(ts: Tokens, k0: nat, op: Op, x: Expr, low: Expr, high: Expr, isNot: bool, r: Expr,
                                       min: int, j: nat, k: nat, n: nat)
    requires (true <==> Negatable(ts, k0, isNot, TBetween, min)) && Printable(high)
    requires IsOperand(ts, k0 + Extra(isNot) + 1, InnerLevel(isNot), low, j)
    requires PartsTo(ts, j, Tok(TOp(And), Sub(high, InnerLevel(isNot), End)), k)
    requires (true <==> Follows(ts, op, r, k, n)) && InnerLevel(isNot) <= OpPrecedence(op)
    ensures Climbs(ts, k0, x, min, Between(x, low, Rotated(op, high, r, InnerLevel(isNot)), isNot), n)
    decreases high, 3
  {
    LastSub(ts, j, TOp(And), high, InnerLevel(isNot), k);
    EndRotated(ts, j + 1, op, high, r, InnerLevel(isNot), k, n);
    ClimbBetween(ts, k0, x, low, Rotated(op, high, r, InnerLevel(isNot)), j, n, min, isNot);
  }

  lemma {:induction false} BetweenRotated(ts: Tokens, i: nat, op: Op, x: Expr, low: Expr, high: Expr, isNot: bool, r: Expr,
                                          min: int, k: nat, n: nat)
    requires (true <==> StandsBefore(ts, i, op, Between(x, low, high, isNot), r, min, k, n))
    requires PartsTo(ts, i, Layout(Between(x, low, high, isNot)), k)
    requires 1 <= min <= Level(Between(x, low, high, isNot)) && InnerLevel(isNot) <= OpPrecedence(op)
    ensures GoesOn(ts, i, min, Between(x, low, Rotated(op, high, r, InnerLevel(isNot)), isNot), n)
    decreases Between(x, low, high, isNot), 0
  {
    var level := InnerLevel(isNot);
    var k0 := PartsOfLeft(ts, i, x, isNot, TBetween, Bounds(low, high, level), k);
    BoundsRotated(ts, k0, op, x, low, high, isNot, r, min, k, n);
    LeftThen(ts, i, x, LeftLevel(x, isNot), min, k0, Between(x, low, Rotated(op, high, r, level), isNot), n);
  }

  /** A printed tree in front of the end of the tokens. */
  lemma ShownLast(ts: Tokens, j: nat, r: Expr, m: int) returns (n: nat)
    requires Printable(r) && m > 0 && From(ts, j, Show(r, m, [TEof]))
    ensures n == |ts| - 1 && ts[n] == TEof && Terminated(ts) && (true <==> Closed(ts, j, r, m, n))
  {
    ShowIsPrinted(ts, j, r, m, [TEof]);
    n := j + Width(r, m);
    assert ts[n] == ts[n..][0];
    Close(ts, j, r, m, n);
  }

  lemma ShownFirst(ts: Tokens, l: Expr, t: Token, rest: seq<Token>) returns (k: nat)
    requires ts == Show(l, 1, [t] + rest)
    ensures Printed(ts, 0, l, 1) && k == Width(l, 1) && Has(ts, k, t) && From(ts, k + 1, rest)
  {
    assert ts[0..] == ts;
    ShowIsPrinted(ts, 0, l, 1, [t] + rest);
    k := Width(l, 1);
    FromToken(ts, k, t, rest);
  }

  lemma LeftBareParts(op: Op, l: Expr, r: Expr) returns (ts: Tokens, k: nat, n: nat)
    requires Printable(Binary(op, l, r))
    ensures ts == LeftBare(op, l, r) && Terminated(ts) && n == |ts| - 1 && ts[n] == TEof
    ensures Printed(ts, 0, l, 1) && k == Width(l, 1) && Has(ts, k, TOp(op))
    ensures (true <==> Closed(ts, k + 1, r, RightLevel(op), n))
  {
    ts := LeftBare(op, l, r);
    k := ShownFirst(ts, l, TOp(op), Show(r, RightLevel(op), [TEof]));
    n := ShownLast(ts, k + 1, r, RightLevel(op));
  }

  lemma LeftBareReads(op: Op, l: Expr, r: Expr)
    requires Printable(Binary(op, l, r))
    ensures var ts := LeftBare(op, l, r);
            ts != [] && IsOperand(ts, 0, 1, Rotated(op, l, r, 1), |ts| - 1)
  {
    var ts, k, n := LeftBareParts(op, l, r);
    RightReads(ts, k + 1, op, r, n);
    EndRotated(ts, 0, op, l, r, 1, k, n);
  }

  lemma RotatedSame(op: Op, l: Expr, r: Expr)
    ensures Rotated(op, l, r, 1) == Binary(op, l, r) <==> OpPrecedence(op) < Stop(l)
  {
  }

  /** The pair around a left operand can be dropped exactly if the operand's outermost construct does not draw the
      operator in: without it the rotated tree is read, which is the same tree only then. */
  lemma LeftPairIff(op: Op, l: Expr, r: Expr)
    requires Printable(Binary(op, l, r))
    ensures var ts := LeftBare(op, l, r);
            Terminated(ts) && Prec(ts, 0, false, 1) == Result(Some(Rotated(op, l, r, 1)), |ts| - 1, false)
    ensures Rotated(op, l, r, 1) == Binary(op, l, r) <==> OpPrecedence(op) < Stop(l)
  {
    LeftBareReads(op, l, r);
    RotatedSame(op, l, r);
  }

  /** The printed form of `l op (r)` without the pair around its right operand. */
  function RightBare(op: Op, l: Expr, r: Expr): Tokens {
    Show(l, OpPrecedence(op), [TOp(op)] + Show(r, 1, [TEof]))
  }

  lemma ShowBinary(op: Op, l: Expr, r: Expr, min: int, rest: seq<Token>)
    requires min <= OpPrecedence(op)
    ensures Show(Binary(op, l, r), min, rest) == Show(l, OpPrecedence(op), [TOp(op)] + Show(r, RightLevel(op), rest))
  {
    var right := Sub(r, RightLevel(op), End);
    assert ShowParts(right, rest) == Show(r, RightLevel(op), rest);
    assert ShowParts(Tok(TOp(op), right), rest) == [TOp(op)] + Show(r, RightLevel(op), rest);
  }

  lemma ShowBare(e: Expr, m: int, n: int, rest: seq<Token>)
    requires m <= Level(e) && n <= Level(e)
    ensures Show(e, m, rest) == Show(e, n, rest)
  {
  }

  /** Without the pair around a right operand that binds no more tightly, its left end goes to the outer operator. */
  lemma RightPairNeeded(op: Op, op2: Op, a: Expr, b: Expr, c: Expr)
    requires Printable(Binary(op, a, b)) && Printable(Binary(op2, b, c)) && !op.LikeOp?
    requires OpPrecedence(op2) <= OpPrecedence(op) < Level(b)
    ensures var ts := RightBare(op, a, Binary(op2, b, c));
            && Terminated(ts)
            && Prec(ts, 0, false, 1) == Result(Some(Binary(op2, Binary(op, a, b), c)), |ts| - 1, false)
  {
    var other := Binary(op2, Binary(op, a, b), c);
    var tail := [TOp(op2)] + Show(c, RightLevel(op2), [TEof]);
    ShowBinary(op2, Binary(op, a, b), c, 1, [TEof]);
    ShowBinary(op, a, b, OpPrecedence(op2), tail);
    ShowBinary(op2, b, c, 1, [TEof]);
    ShowBare(b, OpPrecedence(op2), RightLevel(op), tail);
    assert Show(other, 1, [TEof]) == RightBare(op, a, Binary(op2, b, c));
    RoundTrip([], other, [TEof]);
    assert [] + Show(other, 1, [TEof]) == Show(other, 1, [TEof]);
  }
}
