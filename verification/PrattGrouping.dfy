/** How operators group (src/parser/parser.c), named one by one: trees read from operands without parentheses. */
module PrattGrouping {
  import opened Wrappers
  import opened ExpressionGrammar
  import opened PrattParser
  import opened PrattPrinted
  import opened PrattSteps

  /** No expression goes on at the token. */
  predicate EndsExpression(t: Token) {
    !t.TOp? && t != TNot && t != TIs && t != TIn && t != TBetween
  }

  /** What is read, as far as `n`. */
  ghost predicate Reads(ts: Tokens, i: nat, e: Expr, n: nat) {
    Terminated(ts) && i < |ts| && Prec(ts, i, false, 1) == Result(Some(e), n, false)
  }

  /** The tree of `l op r`. */
  function Joined(op: Op, l: Expr, r: Expr): Expr {
    if op == LikeOp && r.Lit? && r.v.LString? then Like(l, r.v.s, false) else Binary(op, l, r)
  }

  /** In `a first b second c` the operand `b` belongs to the second operator. */
  predicate SecondFirst(first: Op, second: Op) {
    match first
    case Or => second != Or
    case And => second != Or && second != And
    case Eq | Ne | Lt | Le | Gt | Ge => second == Add || second == Minus || second == Mul || second == Div
    case Add | Minus => second == Mul || second == Div
    case Mul | Div => false
    case LikeOp => false
  }

  lemma OperandOf(ts: Tokens, i: nat, e: Expr, n: nat, min: int)
    requires IsPrimary(ts, i, e, n) && Precedence(ts[n]) < min
    ensures true <==> IsOperand(ts, i, min, e, n)
  {
    PrecOfPrimary(ts, i, e, n, min);
    OperandEnds(ts, i, e, n, min);
  }

  /** One operator behind `l`, with the right operand as its level asks for it. */
  lemma JoinStep(ts: Tokens, k: nat, op: Op, l: Expr, r: Expr, n: nat, min: int)
    requires Has(ts, k, TOp(op)) && min <= OpPrecedence(op)
    requires if op.LikeOp? then IsPrimary(ts, k + 1, r, n) else IsOperand(ts, k + 1, RightLevel(op), r, n)
    ensures Climbs(ts, k, l, min, Joined(op, l, r), n)
  {
    if op.LikeOp? && r.Lit? && r.v.LString? {
      assert Climb(ts, k, false, l, min) == Infix(ts, k, false, l, min, 4, false);
    } else {
      ClimbBinary(ts, k, op, l, r, n, min);
    }
  }

  /** An operator between primaries; what stands behind them binds no more tightly. */
  lemma JoinPrimary(ts: Tokens, k: nat, op: Op, l: Expr, r: Expr, n: nat, min: int)
    requires Has(ts, k, TOp(op)) && min <= OpPrecedence(op)
    requires IsPrimary(ts, k + 1, r, n) && (op == LikeOp || Precedence(ts[n]) <= OpPrecedence(op))
    ensures Climbs(ts, k, l, min, Joined(op, l, r), n)
  {
    if op != LikeOp {
      OperandOf(ts, k + 1, r, n, RightLevel(op));
    }
    JoinStep(ts, k, op, l, r, n, min);
  }

  lemma ReadsAll(ts: Tokens, i: nat, e: Expr, n: nat)
    requires GoesOn(ts, i, 1, e, n) && EndsExpression(ts[n])
    ensures Reads(ts, i, e, n)
  {
    OperandEnds(ts, i, e, n, 1);
  }

  lemma FirstStep(ts: Tokens, i: nat, a: Expr, k: nat, min: int, e: Expr, n: nat)
    requires IsPrimary(ts, i, a, k) && Climbs(ts, k, a, min, e, n)
    ensures GoesOn(ts, i, min, e, n)
  {
    PrecOfPrimary(ts, i, a, k, min);
    ThenClimbs(ts, i, min, a, k, e, n);
  }

  lemma ReadsFrom(ts: Tokens, i: nat, a: Expr, k: nat, e: Expr, n: nat)
    requires IsPrimary(ts, i, a, k) && (true <==> Climbs(ts, k, a, 1, e, n)) && EndsExpression(ts[n])
    ensures Reads(ts, i, e, n)
  {
    FirstStep(ts, i, a, k, 1, e, n);
    ReadsAll(ts, i, e, n);
  }

  /** The right operand of `op` is everything up to `n`. */
  lemma JoinRest(ts: Tokens, i: nat, a: Expr, k: nat, op: Op, r: Expr, n: nat)
    requires IsPrimary(ts, i, a, k) && Has(ts, k, TOp(op)) && op != LikeOp
    requires GoesOn(ts, k + 1, RightLevel(op), r, n) && EndsExpression(ts[n])
    ensures Reads(ts, i, Joined(op, a, r), n)
  {
    OperandEnds(ts, k + 1, r, n, RightLevel(op));
    JoinStep(ts, k, op, a, r, n, 1);
    ReadsFrom(ts, i, a, k, Joined(op, a, r), n);
  }

  /** `a op b` and then something that is drawn into the right operand. */
  lemma Inside(ts: Tokens, i: nat, a: Expr, k1: nat, op: Op, b: Expr, k2: nat, r: Expr, n: nat)
    requires IsPrimary(ts, i, a, k1) && Has(ts, k1, TOp(op)) && op != LikeOp && IsPrimary(ts, k1 + 1, b, k2)
    requires Climbs(ts, k2, b, RightLevel(op), r, n) && EndsExpression(ts[n])
    ensures Reads(ts, i, Joined(op, a, r), n)
  {
    FirstStep(ts, k1 + 1, b, k2, RightLevel(op), r, n);
    JoinRest(ts, i, a, k1, op, r, n);
  }

  /** `a op b` and then something that binds no more tightly. */
  lemma Outside(ts: Tokens, i: nat, a: Expr, k1: nat, op: Op, b: Expr, k2: nat, e: Expr, n: nat)
    requires IsPrimary(ts, i, a, k1) && Has(ts, k1, TOp(op)) && IsPrimary(ts, k1 + 1, b, k2)
    requires op == LikeOp || Precedence(ts[k2]) <= OpPrecedence(op)
    requires Climbs(ts, k2, Joined(op, a, b), 1, e, n) && EndsExpression(ts[n])
    ensures Reads(ts, i, e, n)
  {
    JoinPrimary(ts, k1, op, a, b, k2, 1);
    FirstStep(ts, i, a, k1, 1, Joined(op, a, b), k2);
    ThenClimbs(ts, i, 1, Joined(op, a, b), k2, e, n);
    ReadsAll(ts, i, e, n);
  }

  /** `a first b second c`: OR binds less tightly than AND, AND less than the comparisons, these less than + and -,
      and these less than * and /; operators of one kind group to the left.  LIKE stands with the comparisons, but
      takes only the primary behind it. */
  lemma TwoOperators(ts: Tokens, i: nat, a: Expr, k1: nat, first: Op, b: Expr, k2: nat, second: Op, c: Expr, n: nat)
    requires IsPrimary(ts, i, a, k1) && Has(ts, k1, TOp(first)) && IsPrimary(ts, k1 + 1, b, k2)
    requires Has(ts, k2, TOp(second)) && IsPrimary(ts, k2 + 1, c, n) && EndsExpression(ts[n])
    ensures Reads(ts, i, if SecondFirst(first, second) then Joined(first, a, Joined(second, b, c))
                         else Joined(second, Joined(first, a, b), c), n)
  {
    if SecondFirst(first, second) {
      JoinPrimary(ts, k2, second, b, c, n, RightLevel(first));
      Inside(ts, i, a, k1, first, b, k2, Joined(second, b, c), n);
    } else {
      JoinPrimary(ts, k2, second, Joined(first, a, b), c, n, 1);
      Outside(ts, i, a, k1, first, b, k2, Joined(second, Joined(first, a, b), c), n);
    }
  }

  lemma NotCloses(ts: Tokens, i: nat, b: Expr, k: nat, op: Op)
    requires Has(ts, i, TNot) && IsPrimary(ts, i + 1, b, k) && Has(ts, k, TOp(op)) && (op == Or || op == And)
    ensures true <==> IsPrimary(ts, i, Not(b), k)
  {
    OperandOf(ts, i + 1, b, k, 3);
    PrimaryNot(ts, i, b, k);
  }

  /** `NOT a op b`: a prefix NOT takes the comparisons and what binds more tightly, but neither AND nor OR. */
  lemma NotBefore(ts: Tokens, i: nat, a: Expr, k: nat, op: Op, b: Expr, n: nat)
    requires Has(ts, i, TNot) && IsPrimary(ts, i + 1, a, k) && Has(ts, k, TOp(op)) && IsPrimary(ts, k + 1, b, n)
    requires EndsExpression(ts[n])
    ensures Reads(ts, i, if op == Or || op == And then Binary(op, Not(a), b) else Not(Joined(op, a, b)), n)
  {
    if op == Or || op == And {
      NotCloses(ts, i, a, k, op);
      OneOperator(ts, i, Not(a), k, op, b, n);
    } else {
      JoinPrimary(ts, k, op, a, b, n, 3);
      FirstStep(ts, i + 1, a, k, 3, Joined(op, a, b), n);
      NegatedRest(ts, i, Joined(op, a, b), n);
    }
  }

  lemma NegatedRest(ts: Tokens, i: nat, e: Expr, n: nat)
    requires Has(ts, i, TNot) && GoesOn(ts, i + 1, 3, e, n) && EndsExpression(ts[n])
    ensures Reads(ts, i, Not(e), n)
  {
    OperandEnds(ts, i + 1, e, n, 3);
    PrimaryNot(ts, i, e, n);
    PrecOfPrimary(ts, i, Not(e), n, 1);
    ReadsAll(ts, i, Not(e), n);
  }

  /** `a first NOT b second c`: whatever stands before it, the NOT takes the comparisons and what binds more tightly. */
  lemma NotBehind(ts: Tokens, i: nat, a: Expr, k1: nat, first: Op, b: Expr, k2: nat, second: Op, c: Expr, n: nat)
    requires IsPrimary(ts, i, a, k1) && Has(ts, k1, TOp(first)) && Has(ts, k1 + 1, TNot)
    requires IsPrimary(ts, k1 + 2, b, k2)
    requires Has(ts, k2, TOp(second)) && IsPrimary(ts, k2 + 1, c, n) && EndsExpression(ts[n])
    ensures Reads(ts, i, if second != Or && second != And then Joined(first, a, Not(Joined(second, b, c)))
                         else if first == Or && second == And then Binary(Or, a, Binary(And, Not(b), c))
                         else Binary(second, Joined(first, a, Not(b)), c), n)
  {
    if second == Or || second == And {
      NotCloses(ts, k1 + 1, b, k2, second);
      TwoOperators(ts, i, a, k1, first, Not(b), k2, second, c, n);
    } else {
      NotDraws(ts, k1 + 1, b, k2, second, c, n);
      OneOperator(ts, i, a, k1, first, Not(Joined(second, b, c)), n);
    }
  }

  lemma OneOperator(ts: Tokens, i: nat, a: Expr, k: nat, op: Op, b: Expr, n: nat)
    requires IsPrimary(ts, i, a, k) && Has(ts, k, TOp(op)) && (true <==> IsPrimary(ts, k + 1, b, n))
    requires EndsExpression(ts[n])
    ensures Reads(ts, i, Joined(op, a, b), n)
  {
    JoinPrimary(ts, k, op, a, b, n, 1);
    ReadsFrom(ts, i, a, k, Joined(op, a, b), n);
  }

  lemma NotDraws(ts: Tokens, i: nat, b: Expr, k: nat, op: Op, c: Expr, n: nat)
    requires Has(ts, i, TNot) && IsPrimary(ts, i + 1, b, k) && Has(ts, k, TOp(op)) && op != Or && op != And
    requires IsPrimary(ts, k + 1, c, n) && EndsExpression(ts[n])
    ensures true <==> IsPrimary(ts, i, Not(Joined(op, b, c)), n)
  {
    JoinPrimary(ts, k, op, b, c, n, 3);
    FirstStep(ts, i + 1, b, k, 3, Joined(op, b, c), n);
    OperandEnds(ts, i + 1, Joined(op, b, c), n, 3);
    PrimaryNot(ts, i, Joined(op, b, c), n);
  }

  // ---------------------------------------------------------------------------------------------
  // IS, IN, BETWEEN and LIKE with a pattern, each with or without NOT

  datatype Postfix =
    | NullTest(isNot: bool)
    | SameAs(other: Expr, isNot: bool)
    | Member(list: seq<Expr>, isNot: bool)
    | Range(low: Expr, high: Expr, isNot: bool)
    | Pattern(pattern: string, isNot: bool)

  function Applied(p: Postfix, x: Expr): Expr {
    match p
    case NullTest(isNot) => IsNull(x, isNot)
    case SameAs(other, isNot) => Binary(if isNot then Ne else Eq, x, other)
    case Member(list, isNot) => In(x, list, isNot)
    case Range(low, high, isNot) => Between(x, low, high, isNot)
    case Pattern(pattern, isNot) => Like(x, pattern, isNot)
  }

  /** The keyword, with its NOT in front of it, or behind it if it is IS. */
  ghost predicate Keyword(ts: Tokens, k: nat, p: Postfix) {
    Terminated(ts)
    && match p
       case NullTest(isNot) => Has(ts, k, TIs) && (isNot ==> Has(ts, k + 1, TNot))
       case SameAs(_, isNot) => Has(ts, k, TIs) && k + 1 < |ts| && (isNot <==> ts[k + 1] == TNot)
       case Member(_, isNot) => (isNot ==> Has(ts, k, TNot)) && Has(ts, k + Extra(isNot), TIn)
       case Range(_, _, isNot) => (isNot ==> Has(ts, k, TNot)) && Has(ts, k + Extra(isNot), TBetween)
       case Pattern(_, isNot) => (isNot ==> Has(ts, k, TNot)) && Has(ts, k + Extra(isNot), TOp(LikeOp))
  }

  /** What stands behind the keyword, from `k` up to `n`; operands are primaries. */
  ghost predicate Behind(ts: Tokens, k: nat, p: Postfix, n: nat) {
    Terminated(ts) && n < |ts|
    && match p
       case NullTest(_) => Has(ts, k, TLit(LNull)) && n == k + 1
       case SameAs(other, _) => !Has(ts, k, TLit(LNull)) && IsPrimary(ts, k, other, n)
       case Member(list, _) =>
         n > 0 && Has(ts, k, TLeftParen) && AreItems(ts, k + 1, [], list, n - 1) && Has(ts, n - 1, TRightParen)
       case Range(low, high, _) =>
         exists j: nat :: IsPrimary(ts, k, low, j) && Has(ts, j, TOp(And)) && IsPrimary(ts, j + 1, high, n)
       case Pattern(pattern, _) => Has(ts, k, TLit(LString(pattern))) && n == k + 1
  }

  ghost predicate Written(ts: Tokens, k: nat, p: Postfix, n: nat) {
    Keyword(ts, k, p) && Behind(ts, k + 1 + Extra(p.isNot), p, n)
  }

  /** The last operand of the construct draws the operator in. */
  predicate Draws(p: Postfix, op: Op) {
    match p
    case SameAs(_, _) => op == Add || op == Minus || op == Mul || op == Div
    case Range(_, _, isNot) => op == Add || op == Minus || op == Mul || op == Div || (isNot && op != Or && op != And)
    case _ => false
  }

  function Extended(p: Postfix, op: Op, c: Expr): Postfix {
    match p
    case SameAs(other, isNot) => SameAs(Joined(op, other, c), isNot)
    case Range(low, high, isNot) => Range(low, Joined(op, high, c), isNot)
    case _ => p
  }

  lemma SameAsClimbs(ts: Tokens, k: nat, x: Expr, p: Postfix, other: Expr, n: nat, min: int)
    requires (true <==> Keyword(ts, k, p)) && p.SameAs? && min <= 4
    requires !Has(ts, k + 1 + Extra(p.isNot), TLit(LNull))
    requires (true <==> IsOperand(ts, k + 1 + Extra(p.isNot), 5, other, n))
    ensures true <==> Climbs(ts, k, x, min, Applied(SameAs(other, p.isNot), x), n)
  {
  }

  lemma RangeClimbs(ts: Tokens, k: nat, x: Expr, p: Postfix, low: Expr, high: Expr, j: nat, n: nat, min: int)
    requires (true <==> Keyword(ts, k, p)) && p.Range? && min <= (if p.isNot then 3 else 4)
    requires (true <==> IsOperand(ts, k + 1 + Extra(p.isNot), InnerLevel(p.isNot), low, j)) && Has(ts, j, TOp(And))
    requires (true <==> IsOperand(ts, j + 1, InnerLevel(p.isNot), high, n))
    ensures true <==> Climbs(ts, k, x, min, Between(x, low, high, p.isNot), n)
  {
    ClimbBetween(ts, k, x, low, high, j, n, min, p.isNot);
  }

  lemma NullClimbs(ts: Tokens, k: nat, x: Expr, p: Postfix, n: nat, min: int)
    requires (true <==> Keyword(ts, k, p)) && (true <==> Behind(ts, k + 1 + Extra(p.isNot), p, n)) && p.NullTest?
    requires min <= 4
    ensures true <==> Climbs(ts, k, x, min, IsNull(x, p.isNot), n)
  {
    ClimbIsNull(ts, k, x, p.isNot, min);
  }

  lemma MemberClimbs(ts: Tokens, k: nat, x: Expr, p: Postfix, n: nat, min: int)
    requires (true <==> Keyword(ts, k, p)) && (true <==> Behind(ts, k + 1 + Extra(p.isNot), p, n))
    requires p.Member? && min <= (if p.isNot then 3 else 4)
    ensures true <==> Climbs(ts, k, x, min, In(x, p.list, p.isNot), n)
  {
    ClimbIn(ts, k, x, p.list, n - 1, min, p.isNot);
  }

  lemma PatternClimbs(ts: Tokens, k: nat, x: Expr, p: Postfix, n: nat, min: int)
    requires (true <==> Keyword(ts, k, p)) && (true <==> Behind(ts, k + 1 + Extra(p.isNot), p, n))
    requires p.Pattern? && min <= (if p.isNot then 3 else 4)
    ensures true <==> Climbs(ts, k, x, min, Like(x, p.pattern, p.isNot), n)
  {
    ClimbLike(ts, k, x, p.pattern, min, p.isNot);
  }

  lemma WholeRangeClimbs(ts: Tokens, k: nat, x: Expr, p: Postfix, n: nat, min: int)
    requires (true <==> Keyword(ts, k, p)) && (true <==> Behind(ts, k + 1 + Extra(p.isNot), p, n))
    requires p.Range? && min <= (if p.isNot then 3 else 4)
    requires EndsExpression(ts[n]) || (ts[n].TOp? && !Draws(p, ts[n].op))
    ensures true <==> Climbs(ts, k, x, min, Applied(p, x), n)
  {
    var j := RangeParts(ts, k + 1 + Extra(p.isNot), p, n);
    OperandOf(ts, k + 1 + Extra(p.isNot), p.low, j, InnerLevel(p.isNot));
    HighClimbs(ts, k, x, p, p.low, j, n, min);
  }

  lemma HighClimbs(ts: Tokens, k: nat, x: Expr, p: Postfix, low: Expr, j: nat, n: nat, min: int)
    requires (true <==> Keyword(ts, k, p)) && p.Range? && min <= (if p.isNot then 3 else 4)
    requires (true <==> IsOperand(ts, k + 1 + Extra(p.isNot), InnerLevel(p.isNot), low, j)) && Has(ts, j, TOp(And))
    requires IsPrimary(ts, j + 1, p.high, n) && (EndsExpression(ts[n]) || (ts[n].TOp? && !Draws(p, ts[n].op)))
    ensures true <==> Climbs(ts, k, x, min, Between(x, low, p.high, p.isNot), n)
  {
    OperandOf(ts, j + 1, p.high, n, InnerLevel(p.isNot));
    RangeClimbs(ts, k, x, p, low, p.high, j, n, min);
  }

  /** The construct behind `x`, in front of a token that its last operand does not draw in. */
  lemma AppliedClimbs(ts: Tokens, k: nat, x: Expr, p: Postfix, n: nat, min: int)
    requires (true <==> Written(ts, k, p, n)) && min <= (if p.isNot && !p.NullTest? && !p.SameAs? then 3 else 4)
    requires EndsExpression(ts[n]) || (ts[n].TOp? && !Draws(p, ts[n].op))
    ensures true <==> Climbs(ts, k, x, min, Applied(p, x), n)
  {
    match p
    case NullTest(_) => NullClimbs(ts, k, x, p, n, min);
    case SameAs(other, _) =>
      OperandOf(ts, k + 1 + Extra(p.isNot), other, n, 5);
      SameAsClimbs(ts, k, x, p, other, n, min);
    case Member(_, _) => MemberClimbs(ts, k, x, p, n, min);
    case Range(_, _, _) => WholeRangeClimbs(ts, k, x, p, n, min);
    case Pattern(_, _) => PatternClimbs(ts, k, x, p, n, min);
  }

  lemma RangeParts(ts: Tokens, k: nat, p: Postfix, n: nat) returns (j: nat)
    requires Behind(ts, k, p, n) && p.Range?
    ensures IsPrimary(ts, k, p.low, j) && Has(ts, j, TOp(And)) && IsPrimary(ts, j + 1, p.high, n)
  {
    j :| IsPrimary(ts, k, p.low, j) && Has(ts, j, TOp(And)) && IsPrimary(ts, j + 1, p.high, n);
  }

  /** `a op b` and one of these constructs: OR and AND leave `b` to it, all other operators take `b` first. */
  lemma BehindOperator(ts: Tokens, i: nat, a: Expr, k1: nat, op: Op, b: Expr, k2: nat, p: Postfix, n: nat)
    requires IsPrimary(ts, i, a, k1) && Has(ts, k1, TOp(op)) && IsPrimary(ts, k1 + 1, b, k2)
    requires (true <==> Written(ts, k2, p, n)) && EndsExpression(ts[n])
    ensures Reads(ts, i, if op == Or || op == And then Binary(op, a, Applied(p, b)) else Applied(p, Joined(op, a, b)), n)
  {
    if op == Or || op == And {
      AppliedClimbs(ts, k2, b, p, n, RightLevel(op));
      Inside(ts, i, a, k1, op, b, k2, Applied(p, b), n);
    } else {
      AppliedClimbs(ts, k2, Joined(op, a, b), p, n, 1);
      KeywordLoose(ts, k2, p);
      Outside(ts, i, a, k1, op, b, k2, Applied(p, Joined(op, a, b)), n);
    }
  }

  lemma KeywordLoose(ts: Tokens, k: nat, p: Postfix)
    requires Keyword(ts, k, p)
    ensures k < |ts| && Precedence(ts[k]) <= 4
  {
  }

  /** NOT before such a construct negates the whole of it. */
  lemma NotBeforePostfix(ts: Tokens, i: nat, a: Expr, k: nat, p: Postfix, n: nat)
    requires Has(ts, i, TNot) && IsPrimary(ts, i + 1, a, k) && (true <==> Written(ts, k, p, n))
    requires EndsExpression(ts[n])
    ensures Reads(ts, i, Not(Applied(p, a)), n)
  {
    AppliedClimbs(ts, k, a, p, n, 3);
    FirstStep(ts, i + 1, a, k, 3, Applied(p, a), n);
    NegatedRest(ts, i, Applied(p, a), n);
  }

  /** One of these constructs and then `op c`: the last operand draws in what binds more tightly, and that of NOT BETWEEN
      the comparisons, too; otherwise the construct is the left operand. */
  lemma BeforeOperator(ts: Tokens, i: nat, a: Expr, k: nat, p: Postfix, m: nat, op: Op, c: Expr, n: nat)
    requires IsPrimary(ts, i, a, k) && (true <==> Written(ts, k, p, m)) && Has(ts, m, TOp(op))
    requires IsPrimary(ts, m + 1, c, n)
    requires EndsExpression(ts[n])
    ensures Reads(ts, i, if Draws(p, op) then Applied(Extended(p, op, c), a) else Joined(op, Applied(p, a), c), n)
  {
    if Draws(p, op) {
      ExtendedClimbs(ts, k, a, p, m, op, c, n);
      ReadsFrom(ts, i, a, k, Applied(Extended(p, op, c), a), n);
    } else {
      AppliedClimbs(ts, k, a, p, m, 1);
      FirstStep(ts, i, a, k, 1, Applied(p, a), m);
      JoinPrimary(ts, m, op, Applied(p, a), c, n, 1);
      ThenClimbs(ts, i, 1, Applied(p, a), m, Joined(op, Applied(p, a), c), n);
      ReadsAll(ts, i, Joined(op, Applied(p, a), c), n);
    }
  }

  /** The last operand, with the operator it draws in. */
  lemma DrawnIn(ts: Tokens, i: nat, x: Expr, k: nat, op: Op, c: Expr, n: nat, min: int)
    requires IsPrimary(ts, i, x, k) && Has(ts, k, TOp(op)) && IsPrimary(ts, k + 1, c, n) && EndsBefore(ts, n, min)
    requires min <= OpPrecedence(op)
    ensures true <==> IsOperand(ts, i, min, Joined(op, x, c), n)
  {
    JoinPrimary(ts, k, op, x, c, n, min);
    FirstStep(ts, i, x, k, min, Joined(op, x, c), n);
    OperandEnds(ts, i, Joined(op, x, c), n, min);
  }

  /** The token at `n` is no operator, or it is the AND of BETWEEN. */
  ghost predicate EndsBefore(ts: Tokens, n: nat, min: int) {
    n < |ts| && (EndsExpression(ts[n]) || (ts[n] == TOp(And) && min > 2)) && min > 0
  }

  lemma ExtendedClimbs(ts: Tokens, k: nat, x: Expr, p: Postfix, m: nat, op: Op, c: Expr, n: nat)
    requires (true <==> Written(ts, k, p, m)) && Draws(p, op)
    requires Has(ts, m, TOp(op)) && IsPrimary(ts, m + 1, c, n) && EndsExpression(ts[n])
    ensures true <==> Climbs(ts, k, x, 1, Applied(Extended(p, op, c), x), n)
  {
    if p.SameAs? {
      DrawnIn(ts, k + 1 + Extra(p.isNot), p.other, m, op, c, n, 5);
      SameAsClimbs(ts, k, x, p, Joined(op, p.other, c), n, 1);
    } else {
      ExtendedRangeClimbs(ts, k, x, p, m, op, c, n);
    }
  }

  lemma ExtendedRangeClimbs(ts: Tokens, k: nat, x: Expr, p: Postfix, m: nat, op: Op, c: Expr, n: nat)
    requires (true <==> Keyword(ts, k, p)) && (true <==> Behind(ts, k + 1 + Extra(p.isNot), p, m)) && p.Range?
    requires Draws(p, op)
    requires Has(ts, m, TOp(op)) && IsPrimary(ts, m + 1, c, n) && EndsExpression(ts[n])
    ensures true <==> Climbs(ts, k, x, 1, Applied(Extended(p, op, c), x), n)
  {
    var j := RangeParts(ts, k + 1 + Extra(p.isNot), p, m);
    OperandOf(ts, k + 1 + Extra(p.isNot), p.low, j, InnerLevel(p.isNot));
    ExtendedHighClimbs(ts, k, x, p, j, m, op, c, n);
  }

  lemma ExtendedHighClimbs(ts: Tokens, k: nat, x: Expr, p: Postfix, j: nat, m: nat, op: Op, c: Expr, n: nat)
    requires (true <==> Keyword(ts, k, p)) && p.Range? && Draws(p, op)
    requires (true <==> IsOperand(ts, k + 1 + Extra(p.isNot), InnerLevel(p.isNot), p.low, j)) && Has(ts, j, TOp(And))
    requires IsPrimary(ts, j + 1, p.high, m)
    requires Has(ts, m, TOp(op)) && IsPrimary(ts, m + 1, c, n) && EndsExpression(ts[n])
    ensures true <==> Climbs(ts, k, x, 1, Applied(Extended(p, op, c), x), n)
  {
    DrawnIn(ts, j + 1, p.high, m, op, c, n, InnerLevel(p.isNot));
    RangeClimbs(ts, k, x, p, p.low, Joined(op, p.high, c), j, n, 1);
  }

  /** The lower bound of [NOT] BETWEEN draws in the same operators. */
  lemma LowerBound(ts: Tokens, i: nat, a: Expr, k: nat, p: Postfix, k1: nat, op: Op, c: Expr, j: nat, n: nat)
    requires IsPrimary(ts, i, a, k) && (true <==> Keyword(ts, k, p)) && p.Range? && Draws(p, op)
    requires IsPrimary(ts, k + 1 + Extra(p.isNot), p.low, k1) && Has(ts, k1, TOp(op)) && IsPrimary(ts, k1 + 1, c, j)
    requires Has(ts, j, TOp(And)) && IsPrimary(ts, j + 1, p.high, n) && EndsExpression(ts[n])
    ensures Reads(ts, i, Between(a, Joined(op, p.low, c), p.high, p.isNot), n)
  {
    var i0 := k + 1 + Extra(p.isNot);
    DrawnIn(ts, i0, p.low, k1, op, c, j, InnerLevel(p.isNot));
    HighClimbs(ts, k, a, p, Joined(op, p.low, c), j, n, 1);
    ReadsFrom(ts, i, a, k, Between(a, Joined(op, p.low, c), p.high, p.isNot), n);
  }

  // ---------------------------------------------------------------------------------------------
  // Names

  /** The first 63 characters of a name. */
  function Cut(name: string): string {
    if |name| <= 63 then name else name[..63]
  }

  /** Names of columns, tables and functions are cut to the length of the buffers. */
  lemma LongNames(ts: Tokens, i: nat, name: string)
    requires Terminated(ts) && Has(ts, i, TIdent(name)) && i + 1 < |ts| && ts[i + 1] != TLeftParen
    ensures ts[i + 1] != TDot ==> IsPrimary(ts, i, Column("", Cut(name)), i + 1)
    ensures forall column {:trigger TIdent(column)} :: ts[i + 1] == TDot && Has(ts, i + 2, TIdent(column)) ==>
              IsPrimary(ts, i, Column(Cut(name), Cut(column)), i + 3)
  {
  }

  lemma LongCall(ts: Tokens, i: nat, t: Token, name: string)
    requires Terminated(ts) && Has(ts, i, t) && (t == TIdent(name) || t == TAggregate(name))
    requires Has(ts, i + 1, TLeftParen) && Has(ts, i + 2, TOp(Mul)) && Has(ts, i + 3, TRightParen)
    ensures IsPrimary(ts, i, Call(Cut(name), [], true), i + 4)
  {
    assert Primary(ts, i, false) == CallOf(ts, i + 1, Truncated(name));
  }
}
