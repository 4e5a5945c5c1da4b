/** The printed form of an expression tree as a relation between positions of a token list. */
module PrattPrinted {
  import opened ExpressionGrammar
  import opened PrattParser

  function Width(e: Expr, min: int): (w: nat)
    decreases Size(e), 0
  {
    LayoutSize(e);
    PartsWidth(Layout(e)) + if Level(e) < min then 2 else 0
  }

  function PartsWidth(p: Parts): nat
    decreases PartsSize(p), 1, p
  {
    match p
    case End => 0
    case Tok(_, tail) => 1 + PartsWidth(tail)
    case Sub(e, min, tail) => Width(e, min) + PartsWidth(tail)
  }

  predicate Has(ts: Tokens, i: nat, t: Token) {
    i < |ts| && ts[i] == t
  }

  /** The printed form of `e` stands at position `i`. */
  predicate Printed(ts: Tokens, i: nat, e: Expr, min: int)
    decreases Size(e), 0
  {
    LayoutSize(e);
    if Level(e) < min then
      Has(ts, i, TLeftParen) && PartsPrinted(ts, i + 1, Layout(e)) && Has(ts, i + 1 + PartsWidth(Layout(e)), TRightParen)
    else PartsPrinted(ts, i, Layout(e))
  }

  predicate PartsPrinted(ts: Tokens, i: nat, p: Parts)
    decreases PartsSize(p), 1, p
  {
    match p
    case End => true
    case Tok(t, tail) => Has(ts, i, t) && PartsPrinted(ts, i + 1, tail)
    case Sub(e, min, tail) => Printed(ts, i, e, min) && PartsPrinted(ts, i + Width(e, min), tail)
  }

  function Extra(isNot: bool): nat { if isNot then 1 else 0 }

  /** The printed form of parts, as far as `n`. */
  ghost predicate PartsTo(ts: Tokens, i: nat, p: Parts, n: nat) {
    PartsPrinted(ts, i, p) && n == i + PartsWidth(p)
  }

  lemma FirstTok(ts: Tokens, i: nat, t: Token, p: Parts, n: nat)
    requires PartsTo(ts, i, Tok(t, p), n)
    ensures Has(ts, i, t) && PartsTo(ts, i + 1, p, n)
  {
  }

  lemma FirstSub(ts: Tokens, i: nat, e: Expr, min: int, p: Parts, n: nat) returns (k: nat)
    requires PartsTo(ts, i, Sub(e, min, p), n)
    ensures Printed(ts, i, e, min) && k == i + Width(e, min) && PartsTo(ts, k, p, n)
  {
    k := i + Width(e, min);
  }

  lemma FirstNegation(ts: Tokens, i: nat, isNot: bool, p: Parts, n: nat)
    requires PartsTo(ts, i, Negation(isNot, p), n)
    ensures (isNot ==> Has(ts, i, TNot)) && PartsTo(ts, i + Extra(isNot), p, n)
  {
    if isNot { FirstTok(ts, i, TNot, p, n); }
  }

  lemma NoMore(ts: Tokens, i: nat, n: nat)
    requires PartsTo(ts, i, End, n)
    ensures i == n
  {
  }

  /** A token that does not turn the name before it into a call or a qualified column. */
  predicate Ends(t: Token) {
    t != TLeftParen && t != TDot
  }

  /** The printed tree stands at `i` up to `n`, and the token there is not drawn into it.  Contracts say
      `true <==> Stands(..)` so that the solver passes the fact on without unfolding it. */
  ghost predicate Stands(ts: Tokens, i: nat, e: Expr, min: int, n: nat) {
    && Terminated(ts) && Printable(e) && Printed(ts, i, e, min) && n == i + Width(e, min) < |ts|
    && Ends(ts[n]) && (Level(e) >= min ==> Precedence(ts[n]) < Stop(e))
  }

  /** The operator IN, BETWEEN or LIKE with the NOT that may stand before it. */
  ghost predicate Negatable(ts: Tokens, k: nat, isNot: bool, op: Token, min: int) {
    && Terminated(ts) && (isNot ==> Has(ts, k, TNot)) && Has(ts, k + Extra(isNot), op)
    && (op == TIn || op == TBetween || op == TOp(LikeOp))
    && min <= (if isNot then 3 else 4)
  }

  /** A part that stands on its own: the token behind it stops a reading at the part's level. */
  ghost predicate Closed(ts: Tokens, i: nat, e: Expr, min: int, n: nat) {
    Stands(ts, i, e, min, n) && Precedence(ts[n]) < min
  }

  lemma Close(ts: Tokens, i: nat, e: Expr, min: int, n: nat)
    requires Terminated(ts) && Printable(e) && Printed(ts, i, e, min) && n == i + Width(e, min) < |ts|
    requires Ends(ts[n]) && Precedence(ts[n]) < min
    ensures (true <==> Closed(ts, i, e, min, n))
  {
  }

  /** A left operand stands before an operator of its level, unless a prefix NOT would take that operator. */
  lemma StandLeft(ts: Tokens, i: nat, e: Expr, min: int, n: nat)
    requires Terminated(ts) && Printable(e) && Printed(ts, i, e, min) && n == i + Width(e, min) < |ts|
    requires Ends(ts[n]) && Precedence(ts[n]) <= min && !(e.Not? && min <= 3 && Precedence(ts[n]) == 3)
    ensures (true <==> Stands(ts, i, e, min, n))
  {
  }

  lemma PartsOfParen(ts: Tokens, i: nat, e: Expr, m: int, n: nat)
    requires (true <==> Stands(ts, i, e, m, n)) && Level(e) < m
    ensures Has(ts, i, TLeftParen) && n > 0 && (true <==> Closed(ts, i + 1, e, 1, n - 1))
    ensures Has(ts, n - 1, TRightParen)
  {
    assert Printed(ts, i + 1, e, 1) && Width(e, 1) == PartsWidth(Layout(e));
  }

  lemma PartsOfBare(ts: Tokens, i: nat, e: Expr, m: int, n: nat)
    requires (true <==> Stands(ts, i, e, m, n)) && Level(e) >= m
    ensures PartsTo(ts, i, Layout(e), n)
  {
  }

  lemma PartsOfPrefix(ts: Tokens, i: nat, t: Token, x: Expr, min: int, n: nat)
    requires Terminated(ts) && Printable(x) && PartsTo(ts, i, Tok(t, Sub(x, min, End)), n)
    requires n < |ts| && Ends(ts[n]) && Precedence(ts[n]) < min
    ensures Has(ts, i, t) && (true <==> Closed(ts, i + 1, x, min, n))
  {
    FirstTok(ts, i, t, Sub(x, min, End), n);
    var k := FirstSub(ts, i + 1, x, min, End, n);
    NoMore(ts, k, n);
    Close(ts, i + 1, x, min, n);
  }

  lemma LeftOfBinary(ts: Tokens, i: nat, op: Op, a: Expr, b: Expr, k: nat) returns (j: nat)
    requires Terminated(ts) && Printable(a) && PartsTo(ts, i, Layout(Binary(op, a, b)), k) && k < |ts|
    ensures (true <==> Stands(ts, i, a, OpPrecedence(op), j))
    ensures PartsTo(ts, j, Tok(TOp(op), Sub(b, RightLevel(op), End)), k)
  {
    var right := Sub(b, RightLevel(op), End);
    j := FirstSub(ts, i, a, OpPrecedence(op), Tok(TOp(op), right), k);
    FirstTok(ts, j, TOp(op), right, k);
    StandLeft(ts, i, a, OpPrecedence(op), j);
  }

  lemma PartsOfIsNull(ts: Tokens, i: nat, x: Expr, isNot: bool, n: nat) returns (k: nat)
    requires Terminated(ts) && Printable(x) && PartsTo(ts, i, Layout(IsNull(x, isNot)), n) && n < |ts|
    ensures (true <==> Stands(ts, i, x, 4, k)) && Has(ts, k, TIs) && (isNot ==> Has(ts, k + 1, TNot))
    ensures Has(ts, k + 1 + Extra(isNot), TLit(LNull)) && n == k + 2 + Extra(isNot)
  {
    k := FirstSub(ts, i, x, 4, Tok(TIs, Negation(isNot, Tok(TLit(LNull), End))), n);
    NullTokens(ts, k, isNot, n);
    StandLeft(ts, i, x, 4, k);
  }

  lemma NullTokens(ts: Tokens, k: nat, isNot: bool, n: nat)
    requires PartsTo(ts, k, Tok(TIs, Negation(isNot, Tok(TLit(LNull), End))), n)
    ensures Has(ts, k, TIs) && (isNot ==> Has(ts, k + 1, TNot))
    ensures Has(ts, k + 1 + Extra(isNot), TLit(LNull)) && n == k + 2 + Extra(isNot)
  {
    var tail := Tok(TLit(LNull), End);
    FirstTok(ts, k, TIs, Negation(isNot, tail), n);
    FirstNegation(ts, k + 1, isNot, tail, n);
    FirstTok(ts, k + 1 + Extra(isNot), TLit(LNull), End, n);
    NoMore(ts, k + 2 + Extra(isNot), n);
  }

  /** The left operand of [NOT] IN, BETWEEN, LIKE and what follows the operator. */
  lemma PartsOfLeft(ts: Tokens, i: nat, x: Expr, isNot: bool, op: Token, tail: Parts, n: nat) returns (k: nat)
    requires Terminated(ts) && Printable(x) && (op == TIn || op == TBetween || op == TOp(LikeOp))
    requires PartsTo(ts, i, Sub(x, LeftLevel(x, isNot), Negation(isNot, Tok(op, tail))), n)
    ensures (true <==> Stands(ts, i, x, LeftLevel(x, isNot), k))
    ensures (true <==> Negatable(ts, k, isNot, op, if isNot then 3 else 4))
    ensures PartsTo(ts, k + Extra(isNot) + 1, tail, n)
  {
    k := FirstSub(ts, i, x, LeftLevel(x, isNot), Negation(isNot, Tok(op, tail)), n);
    OperatorTokens(ts, k, isNot, op, tail, n);
    StandLeft(ts, i, x, LeftLevel(x, isNot), k);
  }

  lemma OperatorTokens(ts: Tokens, k: nat, isNot: bool, op: Token, tail: Parts, n: nat)
    requires Terminated(ts) && (op == TIn || op == TBetween || op == TOp(LikeOp))
    requires PartsTo(ts, k, Negation(isNot, Tok(op, tail)), n)
    ensures (true <==> Negatable(ts, k, isNot, op, if isNot then 3 else 4))
    ensures PartsTo(ts, k + Extra(isNot) + 1, tail, n)
  {
    FirstNegation(ts, k, isNot, Tok(op, tail), n);
    FirstTok(ts, k + Extra(isNot), op, tail, n);
  }

  /** The bounds of [NOT] BETWEEN. */
  function Bounds(low: Expr, high: Expr, level: int): Parts {
    Sub(low, level, Tok(TOp(And), Sub(high, level, End)))
  }

  /** No printed tree starts like the argument list `)`, and like `*)` only if a star column comes first. */
  lemma {:induction false} FirstToken(ts: Tokens, i: nat, e: Expr, min: int)
    requires Printed(ts, i, e, min)
    ensures i < |ts| && ts[i] != TRightParen
    ensures ts[i] == TOp(Mul) ==> Level(e) >= min && LeadsStar(e)
    decreases Size(e)
  {
    if Level(e) >= min {
      LayoutSize(e);
      var p := Layout(e);
      assert PartsTo(ts, i, p, i + PartsWidth(p));
      if p.Sub? {
        FirstToken(ts, i, p.e, p.min);
      }
    }
  }

  lemma PartsOfIn(ts: Tokens, i: nat, e: Expr, m: int, min: int, n: nat) returns (k: nat)
    requires (true <==> Stands(ts, i, e, m, n)) && min <= m <= Level(e) && e.In?
    ensures (true <==> Stands(ts, i, e.left, LeftLevel(e.left, e.isNot), k))
    ensures (true <==> Negatable(ts, k, e.isNot, TIn, min))
    ensures PartsTo(ts, k + Extra(e.isNot) + 1, Tok(TLeftParen, LayoutList(e.list, Tok(TRightParen, End))), n)
  {
    PartsOfBare(ts, i, e, m, n);
    k := PartsOfLeft(ts, i, e.left, e.isNot, TIn, Tok(TLeftParen, LayoutList(e.list, Tok(TRightParen, End))), n);
  }

  lemma PartsOfBetween(ts: Tokens, i: nat, e: Expr, m: int, min: int, n: nat) returns (k: nat)
    requires (true <==> Stands(ts, i, e, m, n)) && min <= m <= Level(e) && e.Between?
    ensures (true <==> Stands(ts, i, e.operand, LeftLevel(e.operand, e.isNot), k))
    ensures (true <==> Negatable(ts, k, e.isNot, TBetween, min))
    ensures PartsTo(ts, k + Extra(e.isNot) + 1, Bounds(e.low, e.high, InnerLevel(e.isNot)), n)
  {
    PartsOfBare(ts, i, e, m, n);
    k := PartsOfLeft(ts, i, e.operand, e.isNot, TBetween, Bounds(e.low, e.high, InnerLevel(e.isNot)), n);
  }

  lemma PartsOfLike(ts: Tokens, i: nat, x: Expr, pattern: string, isNot: bool, n: nat) returns (k: nat)
    requires Terminated(ts) && Printable(x) && PartsTo(ts, i, Layout(Like(x, pattern, isNot)), n)
    ensures (true <==> Stands(ts, i, x, LeftLevel(x, isNot), k))
    ensures (true <==> Negatable(ts, k, isNot, TOp(LikeOp), if isNot then 3 else 4))
    ensures Has(ts, k + Extra(isNot) + 1, TLit(LString(pattern))) && n == k + Extra(isNot) + 2
  {
    var tail := Tok(TLit(LString(pattern)), End);
    k := PartsOfLeft(ts, i, x, isNot, TOp(LikeOp), tail, n);
    FirstTok(ts, k + Extra(isNot) + 1, TLit(LString(pattern)), End, n);
    NoMore(ts, k + Extra(isNot) + 2, n);
  }

  lemma CallParts(ts: Tokens, i: nat, name: string, args: seq<Expr>, isStar: bool, n: nat)
    requires isStar ==> args == []
    requires PartsTo(ts, i, Layout(Call(name, args, isStar)), n)
    ensures Has(ts, i, Callee(name)) && Has(ts, i + 1, TLeftParen)
    ensures if isStar then n == i + 4 && Has(ts, i + 2, TOp(Mul)) && Has(ts, i + 3, TRightParen)
            else if args == [] then n == i + 3 && Has(ts, i + 2, TRightParen)
            else PartsTo(ts, i + 2, LayoutArgs(args, Tok(TRightParen, End)), n)
  {
    var close := Tok(TRightParen, End);
    var inner := if isStar then Tok(TOp(Mul), close) else LayoutArgs(args, close);
    FirstTok(ts, i, Callee(name), Tok(TLeftParen, inner), n);
    FirstTok(ts, i + 1, TLeftParen, inner, n);
    if isStar {
      FirstTok(ts, i + 2, TOp(Mul), close, n);
      CloseParen(ts, i + 3, n);
    } else if args == [] {
      CloseParen(ts, i + 2, n);
    }
  }

  lemma FirstArg(ts: Tokens, i: nat, es: seq<Expr>, n: nat)
    requires es != [] && !LeadsStar(es[0]) && PartsTo(ts, i, LayoutList(es, Tok(TRightParen, End)), n)
    ensures i < |ts| && ts[i] != TOp(Mul) && ts[i] != TRightParen
  {
    var k := FirstSub(ts, i, es[0], 1, LayoutList(es, Tok(TRightParen, End)).rest, n);
    FirstToken(ts, i, es[0], 1);
  }

  function MoreItems(es: seq<Expr>): Parts {
    if es == [] then Tok(TRightParen, End) else Tok(TComma, LayoutList(es, Tok(TRightParen, End)))
  }

  lemma StarArgParts(ts: Tokens, i: nat, es: seq<Expr>, n: nat) returns (k: nat)
    requires Terminated(ts) && es != [] && AllPrintable(es) && LeadsStar(es[0])
    requires PartsTo(ts, i, LayoutArgs(es, Tok(TRightParen, End)), n) && n < |ts|
    ensures Has(ts, i, TLeftParen) && (true <==> Closed(ts, i + 1, es[0], 1, k)) && Has(ts, k, TRightParen)
    ensures AllPrintable(es[1..]) && PartsTo(ts, k + 1, MoreItems(es[1..]), n)
  {
    var e, more := es[0], MoreItems(es[1..]);
    FirstTok(ts, i, TLeftParen, Sub(e, 1, Tok(TRightParen, more)), n);
    k := FirstSub(ts, i + 1, e, 1, Tok(TRightParen, more), n);
    FirstTok(ts, k, TRightParen, more, n);
    Close(ts, i + 1, e, 1, k);
  }

  lemma CloseParen(ts: Tokens, i: nat, n: nat)
    requires PartsTo(ts, i, Tok(TRightParen, End), n)
    ensures n == i + 1 && Has(ts, i, TRightParen)
  {
    FirstTok(ts, i, TRightParen, End, n);
    NoMore(ts, i + 1, n);
  }

  /** The first of a non-empty list, and what comes behind it. */
  lemma ItemParts(ts: Tokens, i: nat, es: seq<Expr>, n: nat) returns (k: nat)
    requires Terminated(ts) && es != [] && AllPrintable(es)
    requires PartsTo(ts, i, LayoutList(es, Tok(TRightParen, End)), n) && n < |ts|
    ensures (true <==> Closed(ts, i, es[0], 1, k)) && AllPrintable(es[1..])
    ensures if |es| == 1 then n == k + 1 && Has(ts, k, TRightParen)
            else Has(ts, k, TComma) && PartsTo(ts, k + 1, LayoutList(es[1..], Tok(TRightParen, End)), n)
  {
    var close := Tok(TRightParen, End);
    var tail := if |es| == 1 then close else Tok(TComma, LayoutList(es[1..], close));
    k := FirstSub(ts, i, es[0], 1, tail, n);
    if |es| == 1 {
      CloseParen(ts, k, n);
    } else {
      FirstTok(ts, k, TComma, LayoutList(es[1..], close), n);
    }
    Close(ts, i, es[0], 1, k);
  }

  ghost predicate From(ts: Tokens, i: nat, s: seq<Token>) {
    i <= |ts| && ts[i..] == s
  }

  lemma FromToken(ts: Tokens, i: nat, t: Token, rest: seq<Token>)
    requires From(ts, i, [t] + rest)
    ensures Has(ts, i, t) && From(ts, i + 1, rest)
  {
    assert ts[i] == ts[i..][0];
    assert ts[i + 1..] == ts[i..][1..];
  }

  lemma {:induction false} ShowIsPrinted(ts: Tokens, i: nat, e: Expr, m: int, rest: seq<Token>)
    requires From(ts, i, Show(e, m, rest))
    ensures Printed(ts, i, e, m) && From(ts, i + Width(e, m), rest)
    decreases Size(e), 0
  {
    LayoutSize(e);
    if Level(e) < m {
      FromToken(ts, i, TLeftParen, ShowParts(Layout(e), [TRightParen] + rest));
      PartsArePrinted(ts, i + 1, Layout(e), [TRightParen] + rest);
      FromToken(ts, i + 1 + PartsWidth(Layout(e)), TRightParen, rest);
    } else {
      PartsArePrinted(ts, i, Layout(e), rest);
    }
  }

  lemma {:induction false} PartsArePrinted(ts: Tokens, i: nat, p: Parts, rest: seq<Token>)
    requires From(ts, i, ShowParts(p, rest))
    ensures PartsPrinted(ts, i, p) && From(ts, i + PartsWidth(p), rest)
    decreases PartsSize(p), 1, p
  {
    match p
    case End =>
    case Tok(t, tail) =>
      FromToken(ts, i, t, ShowParts(tail, rest));
      PartsArePrinted(ts, i + 1, tail, rest);
    case Sub(e, min, tail) =>
      ShowIsPrinted(ts, i, e, min, ShowParts(tail, rest));
      PartsArePrinted(ts, i + Width(e, min), tail, rest);
  }
}
