/** Single steps of the expression parser (src/parser/parser.c). */
module PrattSteps {
  import opened Wrappers
  import opened ExpressionGrammar
  import opened PrattParser
  import opened PrattPrinted

  /** Reading at `min` from `i` yields `e` and goes on climbing at `n`. */
  ghost predicate GoesOn(ts: Tokens, i: nat, min: int, e: Expr, n: nat) {
    Terminated(ts) && i < |ts| && n < |ts| && Prec(ts, i, false, min) == Climb(ts, n, false, e, min)
  }

  /** Reading at `min` from `i` yields exactly `e`, up to `n`. */
  ghost predicate IsOperand(ts: Tokens, i: nat, min: int, e: Expr, n: nat) {
    Terminated(ts) && i < |ts| && n < |ts| && Prec(ts, i, false, min) == Result(Some(e), n, false)
  }

  ghost predicate IsPrimary(ts: Tokens, i: nat, e: Expr, n: nat) {
    Terminated(ts) && i < |ts| && n < |ts| && Primary(ts, i, false) == Result(Some(e), n, false)
  }

  ghost predicate AreItems(ts: Tokens, i: nat, acc: seq<Expr>, es: seq<Expr>, n: nat) {
    Terminated(ts) && i < |ts| && n < |ts| && Items(ts, i, false, acc) == Result(Some(es), n, false)
  }

  /** Climbing from `k` with `x` gets to `n` with `e`. */
  ghost predicate Climbs(ts: Tokens, k: nat, x: Expr, min: int, e: Expr, n: nat) {
    Terminated(ts) && k < |ts| && n < |ts| && Climb(ts, k, false, x, min) == Climb(ts, n, false, e, min)
  }

  lemma ThenClimbs(ts: Tokens, i: nat, min: int, x: Expr, k: nat, e: Expr, n: nat)
    requires GoesOn(ts, i, min, x, k) && Climbs(ts, k, x, min, e, n)
    ensures GoesOn(ts, i, min, e, n)
  {
  }

  /** Climbing stops at a token that binds less tightly than asked. */
  lemma OperandEnds(ts: Tokens, i: nat, e: Expr, n: nat, min: int)
    requires GoesOn(ts, i, min, e, n) && Precedence(ts[n]) < min
    ensures IsOperand(ts, i, min, e, n)
  {
  }

  lemma PrecOfPrimary(ts: Tokens, i: nat, e: Expr, n: nat, min: int)
    requires IsPrimary(ts, i, e, n)
    ensures GoesOn(ts, i, min, e, n)
  {
  }

  lemma PrimaryParen(ts: Tokens, i: nat, e: Expr, n: nat)
    requires Has(ts, i, TLeftParen) && IsOperand(ts, i + 1, 1, e, n) && Has(ts, n, TRightParen)
    ensures IsPrimary(ts, i, e, n + 1)
  {
  }

  lemma PrimaryNeg(ts: Tokens, i: nat, e: Expr, n: nat)
    requires Has(ts, i, TOp(Minus)) && IsPrimary(ts, i + 1, e, n)
    ensures IsPrimary(ts, i, Neg(e), n)
  {
  }

  lemma PrimaryNot(ts: Tokens, i: nat, e: Expr, n: nat)
    requires Has(ts, i, TNot) && IsOperand(ts, i + 1, 3, e, n)
    ensures IsPrimary(ts, i, Not(e), n)
  {
  }

  lemma PrimaryCall(ts: Tokens, i: nat, name: string, args: seq<Expr>, isStar: bool, n: nat)
    requires Terminated(ts) && Has(ts, i, Callee(name)) && Has(ts, i + 1, TLeftParen) && Has(ts, n, TRightParen)
    requires |name| <= NAME_MAX
    requires if isStar then Has(ts, i + 2, TOp(Mul)) && n == i + 3 && args == []
             else if args == [] then n == i + 2
             else (true <==> AreItems(ts, i + 2, [], args, n)) && ts[i + 2] != TOp(Mul) && ts[i + 2] != TRightParen
    ensures IsPrimary(ts, i, Call(name, args, isStar), n + 1)
  {
    assert Primary(ts, i, false) == CallOf(ts, i + 1, name);
  }

  lemma ItemsLast(ts: Tokens, i: nat, acc: seq<Expr>, e: Expr, n: nat)
    requires IsOperand(ts, i, 1, e, n) && Has(ts, n, TRightParen)
    ensures (true <==> AreItems(ts, i, acc, acc + [e], n))
  {
  }

  lemma ItemsMore(ts: Tokens, i: nat, acc: seq<Expr>, e: Expr, k: nat, es: seq<Expr>, n: nat)
    requires IsOperand(ts, i, 1, e, k) && Has(ts, k, TComma) && (true <==> AreItems(ts, k + 1, acc + [e], es, n))
    ensures (true <==> AreItems(ts, i, acc, es, n))
  {
  }

  lemma ClimbBinary(ts: Tokens, k: nat, op: Op, l: Expr, r: Expr, n: nat, min: int)
    requires Has(ts, k, TOp(op)) && min <= OpPrecedence(op)
    requires if op.LikeOp? then IsPrimary(ts, k + 1, r, n) && (r.Lit? ==> !r.v.LString?)
             else IsOperand(ts, k + 1, RightLevel(op), r, n)
    ensures Climbs(ts, k, l, min, Binary(op, l, r), n)
  {
    assert Climb(ts, k, false, l, min) == Infix(ts, k, false, l, min, OpPrecedence(op), false);
  }

  lemma ClimbIsNull(ts: Tokens, k: nat, x: Expr, isNot: bool, min: int)
    requires Terminated(ts) && Has(ts, k, TIs) && (isNot ==> Has(ts, k + 1, TNot))
    requires Has(ts, k + 1 + Extra(isNot), TLit(LNull)) && min <= 4
    ensures Climbs(ts, k, x, min, IsNull(x, isNot), k + 2 + Extra(isNot))
  {
  }

  lemma ClimbNegation(ts: Tokens, k: nat, x: Expr, isNot: bool, op: Token, min: int)
    requires (true <==> Negatable(ts, k, isNot, op, min))
    ensures Climb(ts, k, false, x, min)
         == Infix(ts, k + Extra(isNot), false, x, min, if isNot then 3 else 4, isNot)
  {
  }

  lemma ClimbIn(ts: Tokens, k: nat, x: Expr, list: seq<Expr>, n: nat, min: int, isNot: bool)
    requires (true <==> Negatable(ts, k, isNot, TIn, min))
    requires Has(ts, k + Extra(isNot) + 1, TLeftParen) && (true <==> AreItems(ts, k + Extra(isNot) + 2, [], list, n))
    requires Has(ts, n, TRightParen)
    ensures Climbs(ts, k, x, min, In(x, list, isNot), n + 1)
  {
    ClimbNegation(ts, k, x, isNot, TIn, min);
    InfixIn(ts, k + Extra(isNot), x, list, n, min, if isNot then 3 else 4, isNot);
  }

  lemma InfixIn(ts: Tokens, k: nat, x: Expr, list: seq<Expr>, n: nat, min: int, prec: int, isNot: bool)
    requires Has(ts, k, TIn) && Has(ts, k + 1, TLeftParen) && (true <==> AreItems(ts, k + 2, [], list, n))
    requires Has(ts, n, TRightParen)
    ensures n + 1 < |ts|
    ensures Infix(ts, k, false, x, min, prec, isNot) == Climb(ts, n + 1, false, In(x, list, isNot), min)
  {
    assert Expect(ts, k + 1, false, TLeftParen) == (k + 2, false);
    assert Expect(ts, n, false, TRightParen) == (n + 1, false);
  }

  lemma ClimbBetween(ts: Tokens, k: nat, x: Expr, low: Expr, high: Expr, m: nat, n: nat, min: int, isNot: bool)
    requires (true <==> Negatable(ts, k, isNot, TBetween, min))
    requires IsOperand(ts, k + Extra(isNot) + 1, InnerLevel(isNot), low, m) && Has(ts, m, TOp(And))
    requires IsOperand(ts, m + 1, InnerLevel(isNot), high, n)
    ensures Climbs(ts, k, x, min, Between(x, low, high, isNot), n)
  {
    ClimbNegation(ts, k, x, isNot, TBetween, min);
  }

  lemma ClimbLike(ts: Tokens, k: nat, x: Expr, pattern: string, min: int, isNot: bool)
    requires (true <==> Negatable(ts, k, isNot, TOp(LikeOp), min))
    requires Has(ts, k + Extra(isNot) + 1, TLit(LString(pattern)))
    ensures Climbs(ts, k, x, min, Like(x, pattern, isNot), k + Extra(isNot) + 2)
  {
    ClimbNegation(ts, k, x, isNot, TOp(LikeOp), min);
  }

  lemma ThenBinary(ts: Tokens, i: nat, op: Op, l: Expr, r: Expr, min: int, k: nat, n: nat)
    requires GoesOn(ts, i, min, l, k) && Has(ts, k, TOp(op)) && min <= OpPrecedence(op)
    requires if op.LikeOp? then IsPrimary(ts, k + 1, r, n) && (r.Lit? ==> !r.v.LString?)
             else IsOperand(ts, k + 1, RightLevel(op), r, n)
    ensures GoesOn(ts, i, min, Binary(op, l, r), n)
  {
    ClimbBinary(ts, k, op, l, r, n, min);
    ThenClimbs(ts, i, min, l, k, Binary(op, l, r), n);
  }

  lemma ColumnReads(ts: Tokens, i: nat, table: string, column: string, n: nat)
    requires Terminated(ts) && Printable(Column(table, column)) && PartsTo(ts, i, Layout(Column(table, column)), n)
    requires n < |ts| && Ends(ts[n])
    ensures IsPrimary(ts, i, Column(table, column), n)
  {
    if table == "" {
      FirstTok(ts, i, if column == "*" then TOp(Mul) else TIdent(column), End, n);
      NoMore(ts, i + 1, n);
    } else {
      var c := if column == "*" then TOp(Mul) else TIdent(column);
      FirstTok(ts, i, TIdent(table), Tok(TDot, Tok(c, End)), n);
      FirstTok(ts, i + 1, TDot, Tok(c, End), n);
      FirstTok(ts, i + 2, c, End, n);
      NoMore(ts, i + 3, n);
    }
  }
}
