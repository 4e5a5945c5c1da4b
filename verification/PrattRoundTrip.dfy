/** Parsing the printed form of an expression tree gives the tree back. */
module PrattRoundTrip {
  import opened Wrappers
  import opened ExpressionGrammar
  import opened PrattParser
  import opened PrattPrinted
  import opened PrattSteps

  /** The main lemma: reading at `min` from the start of a printed tree consumes exactly its tokens and
      goes on climbing behind it. */
  lemma {:induction false} PrecReads(ts: Tokens, i: nat, e: Expr, m: int, min: int, n: nat)
    requires (true <==> Stands(ts, i, e, m, n)) && 1 <= min <= m <= PRIMARY
    ensures GoesOn(ts, i, min, e, n)
    decreases e, if Level(e) < m then 3 else 1
  {
    if Level(e) < m || Level(e) == PRIMARY {
      PrimaryReads(ts, i, e, m, n);
      PrecOfPrimary(ts, i, e, n, min);
    } else if e.Not? {
      PartsOfBare(ts, i, e, m, n);
      PartsOfPrefix(ts, i, TNot, e.operand, 3, n);
      OperandReads(ts, i + 1, e.operand, 3, n);
      PrimaryNot(ts, i, e.operand, n);
      PrecOfPrimary(ts, i, e, n, min);
    } else {
      InfixReads(ts, i, e, m, min, n);
    }
  }

  /** A left operand, and what climbing makes of it. */
  lemma {:induction false} LeftThen(ts: Tokens, i: nat, x: Expr, m: int, min: int, k: nat, e: Expr, n: nat)
    requires (true <==> Stands(ts, i, x, m, k)) && 1 <= min <= m <= PRIMARY && Climbs(ts, k, x, min, e, n)
    ensures GoesOn(ts, i, min, e, n)
    decreases x, 4
  {
    PrecReads(ts, i, x, m, min, k);
    ThenClimbs(ts, i, min, x, k, e, n);
  }

  /** A tree whose outermost construct is an infix or postfix operator. */
  lemma {:induction false} InfixReads(ts: Tokens, i: nat, e: Expr, m: int, min: int, n: nat)
    requires (true <==> Stands(ts, i, e, m, n)) && 1 <= min <= m <= Level(e) < PRIMARY && !e.Not?
    ensures GoesOn(ts, i, min, e, n)
    decreases e, 0, 3
  {
    match e
    case Binary(_, _, _) => BinaryReads(ts, i, e, m, min, n);
    case IsNull(_, _) => IsNullReads(ts, i, e, m, min, n);
    case In(_, _, _) => InReads(ts, i, e, m, min, n);
    case Between(_, _, _, _) => BetweenReads(ts, i, e, m, min, n);
    case Like(_, _, _) => LikeReads(ts, i, e, m, min, n);
  }

  lemma {:induction false} BinaryReads(ts: Tokens, i: nat, e: Expr, m: int, min: int, n: nat)
    requires (true <==> Stands(ts, i, e, m, n)) && 1 <= min <= m <= Level(e) && e.Binary?
    ensures GoesOn(ts, i, min, e, n)
    decreases e, 0, 2
  {
    PartsOfBare(ts, i, e, m, n);
    var k := LeftOfBinary(ts, i, e.op, e.left, e.right, n);
    RightClimbs(ts, k, e.op, e.left, e.right, min, n);
    LeftThen(ts, i, e.left, OpPrecedence(e.op), min, k, e, n);
  }

  lemma {:induction false} RightClimbs(ts: Tokens, k: nat, op: Op, l: Expr, r: Expr, min: int, n: nat)
    requires Terminated(ts) && Printable(Binary(op, l, r))
    requires PartsTo(ts, k, Tok(TOp(op), Sub(r, RightLevel(op), End)), n)
    requires n < |ts| && Ends(ts[n]) && Precedence(ts[n]) < RightLevel(op) && min <= OpPrecedence(op)
    ensures Climbs(ts, k, l, min, Binary(op, l, r), n)
    decreases r, 6
  {
    PartsOfPrefix(ts, k, TOp(op), r, RightLevel(op), n);
    RightReads(ts, k + 1, op, r, n);
    ClimbBinary(ts, k, op, l, r, n, min);
  }

  lemma {:induction false} IsNullReads(ts: Tokens, i: nat, e: Expr, m: int, min: int, n: nat)
    requires (true <==> Stands(ts, i, e, m, n)) && 1 <= min <= m <= Level(e) && e.IsNull?
    ensures GoesOn(ts, i, min, e, n)
    decreases e, 0, 2
  {
    var k := NullClimbs(ts, i, e, m, min, n);
    LeftThen(ts, i, e.operand, 4, min, k, e, n);
  }

  lemma NullClimbs(ts: Tokens, i: nat, e: Expr, m: int, min: int, n: nat) returns (k: nat)
    requires (true <==> Stands(ts, i, e, m, n)) && min <= m <= Level(e) && e.IsNull?
    ensures (true <==> Stands(ts, i, e.operand, 4, k)) && Climbs(ts, k, e.operand, min, e, n)
  {
    PartsOfBare(ts, i, e, m, n);
    k := PartsOfIsNull(ts, i, e.operand, e.isNot, n);
    ClimbIsNull(ts, k, e.operand, e.isNot, min);
  }

  lemma {:induction false} InReads(ts: Tokens, i: nat, e: Expr, m: int, min: int, n: nat)
    requires (true <==> Stands(ts, i, e, m, n)) && 1 <= min <= m <= Level(e) && e.In?
    ensures GoesOn(ts, i, min, e, n)
    decreases e, 0, 2
  {
    var k := PartsOfIn(ts, i, e, m, min, n);
    InClimbs(ts, k, e.left, e.list, e.isNot, min, n);
    LeftThen(ts, i, e.left, LeftLevel(e.left, e.isNot), min, k, e, n);
  }

  lemma {:induction false} InClimbs(ts: Tokens, k: nat, x: Expr, list: seq<Expr>, isNot: bool, min: int, n: nat)
    requires (true <==> Negatable(ts, k, isNot, TIn, min)) && list != [] && AllPrintable(list) && n < |ts|
    requires PartsTo(ts, k + Extra(isNot) + 1, Tok(TLeftParen, LayoutList(list, Tok(TRightParen, End))), n)
    ensures Climbs(ts, k, x, min, In(x, list, isNot), n)
    decreases list, 5
  {
    ListReads(ts, k + Extra(isNot) + 1, list, n);
    ClimbIn(ts, k, x, list, n - 1, min, isNot);
  }

  lemma {:induction false} ListReads(ts: Tokens, i: nat, list: seq<Expr>, n: nat)
    requires Terminated(ts) && list != [] && AllPrintable(list) && n < |ts|
    requires PartsTo(ts, i, Tok(TLeftParen, LayoutList(list, Tok(TRightParen, End))), n)
    ensures Has(ts, i, TLeftParen) && n > 0 && (true <==> AreItems(ts, i + 1, [], list, n - 1))
    ensures Has(ts, n - 1, TRightParen)
    decreases list, 4, 1
  {
    FirstTok(ts, i, TLeftParen, LayoutList(list, Tok(TRightParen, End)), n);
    ItemsRead(ts, i + 1, list, [], n);
    assert [] + list == list;
  }

  lemma {:induction false} BetweenReads(ts: Tokens, i: nat, e: Expr, m: int, min: int, n: nat)
    requires (true <==> Stands(ts, i, e, m, n)) && 1 <= min <= m <= Level(e) && e.Between?
    ensures GoesOn(ts, i, min, e, n)
    decreases e, 0, 2
  {
    var k := PartsOfBetween(ts, i, e, m, min, n);
    BoundsRead(ts, k, e.operand, e.low, e.high, e.isNot, min, n);
    LeftThen(ts, i, e.operand, LeftLevel(e.operand, e.isNot), min, k, e, n);
  }

  lemma {:induction false} BoundsRead(ts: Tokens, k: nat, x: Expr, low: Expr, high: Expr, isNot: bool, min: int,
                                      n: nat)
    requires (true <==> Negatable(ts, k, isNot, TBetween, min)) && Printable(low) && Printable(high)
    requires PartsTo(ts, k + Extra(isNot) + 1, Bounds(low, high, InnerLevel(isNot)), n)
    requires n < |ts| && Ends(ts[n]) && Precedence(ts[n]) < InnerLevel(isNot)
    ensures Climbs(ts, k, x, min, Between(x, low, high, isNot), n)
    decreases Between(x, low, high, isNot), 0, 1
  {
    var j := LowReads(ts, k + Extra(isNot) + 1, low, high, InnerLevel(isNot), n);
    HighReads(ts, k, x, low, high, isNot, min, j, n);
  }

  lemma {:induction false} LowReads(ts: Tokens, i: nat, low: Expr, high: Expr, level: int, n: nat) returns (j: nat)
    requires Terminated(ts) && Printable(low) && 2 < level <= PRIMARY
    requires PartsTo(ts, i, Bounds(low, high, level), n) && n < |ts|
    ensures IsOperand(ts, i, level, low, j) && PartsTo(ts, j, Tok(TOp(And), Sub(high, level, End)), n)
    decreases low, 5
  {
    j := FirstSub(ts, i, low, level, Tok(TOp(And), Sub(high, level, End)), n);
    FirstTok(ts, j, TOp(And), Sub(high, level, End), n);
    Close(ts, i, low, level, j);
    OperandReads(ts, i, low, level, j);
  }

  lemma {:induction false} HighReads(ts: Tokens, k: nat, x: Expr, low: Expr, high: Expr, isNot: bool, min: int,
                                     j: nat, n: nat)
    requires (true <==> Negatable(ts, k, isNot, TBetween, min)) && Printable(high)
    requires IsOperand(ts, k + Extra(isNot) + 1, InnerLevel(isNot), low, j)
    requires PartsTo(ts, j, Tok(TOp(And), Sub(high, InnerLevel(isNot), End)), n)
    requires n < |ts| && Ends(ts[n]) && Precedence(ts[n]) < InnerLevel(isNot)
    ensures Climbs(ts, k, x, min, Between(x, low, high, isNot), n)
    decreases high, 5
  {
    PartsOfPrefix(ts, j, TOp(And), high, InnerLevel(isNot), n);
    OperandReads(ts, j + 1, high, InnerLevel(isNot), n);
    ClimbBetween(ts, k, x, low, high, j, n, min, isNot);
  }

  lemma {:induction false} LikeReads(ts: Tokens, i: nat, e: Expr, m: int, min: int, n: nat)
    requires (true <==> Stands(ts, i, e, m, n)) && 1 <= min <= m <= Level(e) && e.Like?
    ensures GoesOn(ts, i, min, e, n)
    decreases e, 0, 2
  {
    var k := PatternClimbs(ts, i, e, m, min, n);
    LeftThen(ts, i, e.operand, LeftLevel(e.operand, e.isNot), min, k, e, n);
  }

  lemma PatternClimbs(ts: Tokens, i: nat, e: Expr, m: int, min: int, n: nat) returns (k: nat)
    requires (true <==> Stands(ts, i, e, m, n)) && min <= m <= Level(e) && e.Like?
    ensures (true <==> Stands(ts, i, e.operand, LeftLevel(e.operand, e.isNot), k))
    ensures Climbs(ts, k, e.operand, min, e, n)
  {
    PartsOfBare(ts, i, e, m, n);
    k := PartsOfLike(ts, i, e.operand, e.pattern, e.isNot, n);
    ClimbLike(ts, k, e.operand, e.pattern, min, e.isNot);
  }

  lemma {:induction false} RightReads(ts: Tokens, i: nat, op: Op, r: Expr, n: nat)
    requires (true <==> Closed(ts, i, r, RightLevel(op), n))
    ensures if op.LikeOp? then IsPrimary(ts, i, r, n) else IsOperand(ts, i, RightLevel(op), r, n)
    decreases r, 5
  {
    if op.LikeOp? {
      PrimaryReads(ts, i, r, PRIMARY, n);
    } else {
      OperandReads(ts, i, r, RightLevel(op), n);
    }
  }

  /** An operand followed by a token that binds less tightly is read on its own. */
  lemma {:induction false} OperandReads(ts: Tokens, i: nat, e: Expr, m: int, n: nat)
    requires (true <==> Closed(ts, i, e, m, n)) && 1 <= m <= PRIMARY
    ensures IsOperand(ts, i, m, e, n)
    decreases e, 4
  {
    PrecReads(ts, i, e, m, m, n);
    OperandEnds(ts, i, e, n, m);
  }

  /** A parenthesised tree or a primary is read by parse_primary. */
  lemma {:induction false} PrimaryReads(ts: Tokens, i: nat, e: Expr, m: int, n: nat)
    requires (true <==> Stands(ts, i, e, m, n)) && m <= PRIMARY && (Level(e) < m || Level(e) == PRIMARY)
    ensures IsPrimary(ts, i, e, n)
    decreases e, if Level(e) < m then 2 else 0, 1
  {
    if Level(e) < m {
      PartsOfParen(ts, i, e, m, n);
      PrecReads(ts, i + 1, e, 1, 1, n - 1);
      OperandEnds(ts, i + 1, e, n - 1, 1);
      PrimaryParen(ts, i, e, n - 1);
    } else {
      BarePrimaryReads(ts, i, e, m, n);
    }
  }

  lemma {:induction false} BarePrimaryReads(ts: Tokens, i: nat, e: Expr, m: int, n: nat)
    requires (true <==> Stands(ts, i, e, m, n)) && m <= PRIMARY == Level(e)
    ensures IsPrimary(ts, i, e, n)
    decreases e, 0, 0
  {
    PartsOfBare(ts, i, e, m, n);
    match e
    case Lit(v) =>
      FirstTok(ts, i, TLit(v), End, n);
      NoMore(ts, i + 1, n);
    case Column(table, column) => ColumnReads(ts, i, table, column, n);
    case Neg(x) =>
      PartsOfPrefix(ts, i, TOp(Minus), x, PRIMARY, n);
      PrimaryReads(ts, i + 1, x, PRIMARY, n);
      PrimaryNeg(ts, i, x, n);
    case Call(name, args, isStar) => CallReads(ts, i, name, args, isStar, n);
  }

  lemma {:induction false} CallReads(ts: Tokens, i: nat, name: string, args: seq<Expr>, isStar: bool, n: nat)
    requires Terminated(ts) && |name| <= NAME_MAX && (isStar ==> args == []) && AllPrintable(args)
    requires PartsTo(ts, i, Layout(Call(name, args, isStar)), n) && n < |ts|
    ensures IsPrimary(ts, i, Call(name, args, isStar), n)
    decreases args, 6
  {
    CallParts(ts, i, name, args, isStar, n);
    if !isStar && args != [] {
      ArgsRead(ts, i + 2, args, n);
    }
    PrimaryCall(ts, i, name, args, isStar, n - 1);
  }

  /** The arguments of a call, which do not start like `*)` or `)`. */
  lemma {:induction false} ArgsRead(ts: Tokens, i: nat, es: seq<Expr>, n: nat)
    requires Terminated(ts) && es != [] && AllPrintable(es)
    requires PartsTo(ts, i, LayoutArgs(es, Tok(TRightParen, End)), n) && n < |ts|
    ensures n > 0 && (true <==> AreItems(ts, i, [], es, n - 1)) && Has(ts, n - 1, TRightParen)
    ensures ts[i] != TOp(Mul) && ts[i] != TRightParen
    decreases es, 5
  {
    if !LeadsStar(es[0]) {
      FirstArg(ts, i, es, n);
      ItemsRead(ts, i, es, [], n);
      assert [] + es == es;
    } else {
      var k := StarArgParts(ts, i, es, n);
      StarArgsRead(ts, i, es, k, n);
    }
  }

  lemma {:induction false} StarArgsRead(ts: Tokens, i: nat, es: seq<Expr>, k: nat, n: nat)
    requires es != [] && n < |ts|
    requires Has(ts, i, TLeftParen) && (true <==> Closed(ts, i + 1, es[0], 1, k)) && Has(ts, k, TRightParen)
    requires AllPrintable(es[1..]) && PartsTo(ts, k + 1, MoreItems(es[1..]), n)
    ensures n > 0 && (true <==> AreItems(ts, i, [], es, n - 1)) && Has(ts, n - 1, TRightParen)
    decreases es, 4
  {
    OperandReads(ts, i + 1, es[0], 1, k);
    PrimaryParen(ts, i, es[0], k);
    assert k + 1 < |ts|;
    PrecOfPrimary(ts, i, es[0], k + 1, 1);
    MoreRead(ts, i, es[0], es[1..], k + 1, n);
    assert [es[0]] + es[1..] == es;
  }

  /** The rest of a list behind its first element. */
  lemma {:induction false} MoreRead(ts: Tokens, i: nat, e: Expr, es: seq<Expr>, k: nat, n: nat)
    requires AllPrintable(es) && GoesOn(ts, i, 1, e, k) && n < |ts| && PartsTo(ts, k, MoreItems(es), n)
    ensures n > 0 && (true <==> AreItems(ts, i, [], [e] + es, n - 1)) && Has(ts, n - 1, TRightParen)
    decreases es, 5
  {
    if es == [] {
      CloseParen(ts, k, n);
      OperandEnds(ts, i, e, k, 1);
      ItemsLast(ts, i, [], e, k);
      assert [] + [e] == [e] + es;
    } else {
      FirstTok(ts, k, TComma, LayoutList(es, Tok(TRightParen, End)), n);
      OperandEnds(ts, i, e, k, 1);
      assert [] + [e] == [e];
      ItemsRead(ts, k + 1, es, [e], n);
      ItemsMore(ts, i, [], e, k, [e] + es, n - 1);
    }
  }

  lemma {:induction false} ItemReads(ts: Tokens, i: nat, es: seq<Expr>, n: nat) returns (k: nat)
    requires Terminated(ts) && es != [] && AllPrintable(es)
    requires PartsTo(ts, i, LayoutList(es, Tok(TRightParen, End)), n) && n < |ts|
    ensures IsOperand(ts, i, 1, es[0], k) && AllPrintable(es[1..])
    ensures if |es| == 1 then n == k + 1 && Has(ts, k, TRightParen)
            else Has(ts, k, TComma) && PartsTo(ts, k + 1, LayoutList(es[1..], Tok(TRightParen, End)), n)
    decreases es, 3
  {
    k := ItemParts(ts, i, es, n);
    OperandReads(ts, i, es[0], 1, k);
  }

  /** A non-empty list up to its closing parenthesis, which stands before `n`. */
  lemma {:induction false} ItemsRead(ts: Tokens, i: nat, es: seq<Expr>, acc: seq<Expr>, n: nat)
    requires Terminated(ts) && es != [] && AllPrintable(es)
    requires PartsTo(ts, i, LayoutList(es, Tok(TRightParen, End)), n) && n < |ts|
    ensures n > 0 && (true <==> AreItems(ts, i, acc, acc + es, n - 1)) && Has(ts, n - 1, TRightParen)
    decreases es, 4, 0
  {
    var k := ItemReads(ts, i, es, n);
    if |es| == 1 {
      ItemsLast(ts, i, acc, es[0], k);
      assert acc + [es[0]] == acc + es;
    } else {
      ItemsRead(ts, k + 1, es[1..], acc + [es[0]], n);
      assert acc + [es[0]] + es[1..] == acc + es;
      ItemsMore(ts, i, acc, es[0], k, acc + es, n - 1);
    }
  }

  /** A tree whose tokens stand at `i` in front of `behind` is read as far as there. */
  lemma ReadsShown(ts: Tokens, i: nat, e: Expr, behind: Tokens)
    requires Printable(e) && Terminated(behind) && From(ts, i, Show(e, 1, behind))
    requires Precedence(behind[0]) == 0 && Ends(behind[0])
    ensures i < |ts| - |behind| && From(ts, |ts| - |behind|, behind)
    ensures IsOperand(ts, i, 1, e, |ts| - |behind|)
  {
    ShowIsPrinted(ts, i, e, 1, behind);
    var n := i + Width(e, 1);
    assert ts[n] == ts[n..][0] && ts[|ts| - 1] == ts[n..][|behind| - 1];
    Close(ts, i, e, 1, n);
    OperandReads(ts, i, e, 1, n);
  }

  /** parse_expression on the printed form of a tree gives the tree and consumes exactly its tokens,
      wherever the tokens stand and whatever ends the expression behind them. */
  lemma RoundTrip(before: Tokens, e: Expr, behind: Tokens)
    requires Printable(e) && Terminated(behind)
    requires Precedence(behind[0]) == 0 && Ends(behind[0])
    ensures var ts := before + Show(e, 1, behind);
            && Terminated(ts) && |before| < |ts| - |behind| && ts[|ts| - |behind|..] == behind
            && Prec(ts, |before|, false, 1) == Result(Some(e), |ts| - |behind|, false)
  {
    ReadsShown(before + Show(e, 1, behind), |before|, e, behind);
  }

  /** So no two trees have the same printed form. */
  lemma Unambiguous(a: Expr, b: Expr)
    requires Printable(a) && Printable(b) && Show(a, 1, [TEof]) == Show(b, 1, [TEof])
    ensures a == b
  {
    RoundTrip([], a, [TEof]);
    RoundTrip([], b, [TEof]);
  }
}
