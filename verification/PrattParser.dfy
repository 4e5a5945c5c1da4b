/** The expression parser (src/parser/parser.c) as functions of the token list, the position and the
    error flag. */
module PrattParser {
  import opened Wrappers
  import opened ExpressionGrammar

  /** What a parsing routine leaves behind: its tree, if any, the position and the error flag. */
  datatype Result<T> = Result(tree: Option<T>, pos: nat, err: bool)

  type Tokens = seq<Token>

  /** The lexer ends every token list with an end-of-input token. */
  predicate Terminated(ts: Tokens) {
    ts != [] && ts[|ts| - 1] == TEof
  }

  function Truncated(name: string): string {
    if |name| > NAME_MAX then name[..NAME_MAX] else name
  }

  function PeekNext(ts: Tokens, pos: nat): Token {
    if pos + 1 < |ts| then ts[pos + 1] else TEof
  }

  /** `expect`: consumes the token or raises the error flag. */
  function Expect(ts: Tokens, pos: nat, err: bool, t: Token): (r: (nat, bool))
    requires Terminated(ts) && pos < |ts| && t != TEof
    ensures pos <= r.0 < |ts|
  {
    if ts[pos] == t then (pos + 1, err) else (pos, true)
  }

  /** parse_primary. */
  function Primary(ts: Tokens, pos: nat, err: bool): (r: Result<Expr>)
    requires Terminated(ts) && pos < |ts|
    ensures pos <= r.pos < |ts| && (r.tree.Some? ==> pos < r.pos)
    decreases |ts| - pos, 1
  {
    if err then Result(None, pos, true)
    else match ts[pos]
      case TLit(v) => Result(Some(Lit(v)), pos + 1, false)
      case TLeftParen =>
        var r := Prec(ts, pos + 1, false, 1);
        var (pos', err') := Expect(ts, r.pos, r.err, TRightParen);
        Result(r.tree, pos', err')
      case TOp(Minus) =>
        var r := Primary(ts, pos + 1, false);
        if r.tree.None? then r else r.(tree := Some(Neg(r.tree.value)))
      case TNot =>
        var r := Prec(ts, pos + 1, false, 3);
        if r.tree.None? then r else r.(tree := Some(Not(r.tree.value)))
      case TAggregate(name) => CallOf(ts, pos + 1, Truncated(name))
      case TIdent(name) =>
        if PeekNext(ts, pos) == TLeftParen then CallOf(ts, pos + 1, Truncated(name))
        else if ts[pos + 1] == TDot then
          match ts[pos + 2]
          case TIdent(column) => Result(Some(Column(Truncated(name), Truncated(column))), pos + 3, false)
          case TOp(Mul) => Result(Some(Column(Truncated(name), "*")), pos + 3, false)
          case _ => Result(None, pos + 2, true)
        else Result(Some(Column("", Truncated(name))), pos + 1, false)
      case TOp(Mul) => Result(Some(Column("", "*")), pos + 1, false)
      case _ => Result(None, pos, true)
  }

  /** parse_function_call, behind the name. */
  function CallOf(ts: Tokens, pos: nat, name: string): (r: Result<Expr>)
    requires Terminated(ts) && pos < |ts|
    ensures pos <= r.pos < |ts|
    decreases |ts| - pos, 4
  {
    var (pos1, err1) := Expect(ts, pos, false, TLeftParen);
    if ts[pos1] == TOp(Mul) then
      var (pos2, err2) := Expect(ts, pos1 + 1, err1, TRightParen);
      Result(Some(Call(name, [], true)), pos2, err2)
    else if ts[pos1] != TRightParen then
      var r := Items(ts, pos1, err1, []);
      if r.tree.None? then Result(None, r.pos, r.err)
      else
        var (pos2, err2) := Expect(ts, r.pos, r.err, TRightParen);
        Result(Some(Call(name, r.tree.value, false)), pos2, err2)
    else Result(Some(Call(name, [], false)), pos1 + 1, err1)
  }

  /** The comma-separated expressions of an argument or IN list, behind the ones in `acc`. */
  function Items(ts: Tokens, pos: nat, err: bool, acc: seq<Expr>): (r: Result<seq<Expr>>)
    requires Terminated(ts) && pos < |ts|
    ensures pos <= r.pos < |ts|
    decreases |ts| - pos, 3
  {
    var r := Prec(ts, pos, err, 1);
    if r.tree.None? then Result(None, r.pos, r.err)
    else if ts[r.pos] == TComma then Items(ts, r.pos + 1, r.err, acc + [r.tree.value])
    else Result(Some(acc + [r.tree.value]), r.pos, r.err)
  }

  /** parse_expression_prec. */
  function Prec(ts: Tokens, pos: nat, err: bool, min: int): (r: Result<Expr>)
    requires Terminated(ts) && pos < |ts|
    ensures pos <= r.pos < |ts| && (r.tree.Some? ==> pos < r.pos)
    decreases |ts| - pos, 2
  {
    var r := Primary(ts, pos, err);
    if r.tree.None? then r else Climb(ts, r.pos, r.err, r.tree.value, min)
  }

  predicate NegatesInfix(ts: Tokens, pos: nat) {
    PeekNext(ts, pos) == TIn || PeekNext(ts, pos) == TBetween || PeekNext(ts, pos) == TOp(LikeOp)
  }

  /** The loop of parse_expression_prec: operators of at least precedence `min` behind `left`. */
  function Climb(ts: Tokens, pos: nat, err: bool, left: Expr, min: int): (r: Result<Expr>)
    requires Terminated(ts) && pos < |ts|
    ensures pos <= r.pos < |ts|
    decreases |ts| - pos, 1
  {
    var t := ts[pos];
    var prec := Precedence(t);
    if prec == 0 || prec < min then Result(Some(left), pos, err)
    else if t == TIs then
      var isNot := ts[pos + 1] == TNot;
      var pos1 := if isNot then pos + 2 else pos + 1;
      if ts[pos1] == TLit(LNull) then Climb(ts, pos1 + 1, err, IsNull(left, isNot), min)
      else
        var r := Prec(ts, pos1, err, prec + 1);
        if r.tree.None? then r
        else Climb(ts, r.pos, r.err, Binary(if isNot then Ne else Eq, left, r.tree.value), min)
    else if t == TNot then
      if NegatesInfix(ts, pos) then Infix(ts, pos + 1, err, left, min, prec, true) else Result(Some(left), pos, err)
    else Infix(ts, pos, err, left, min, prec, false)
  }

  /** LIKE with a string literal is a pattern match, with anything else a binary operator without its NOT. */
  function LikeOf(left: Expr, right: Expr, isNot: bool): Expr {
    match right
    case Lit(LString(pattern)) => Like(left, pattern, isNot)
    case _ => Binary(LikeOp, left, right)
  }

  /** The operator at `pos`, which is not IS; `prec` is 3 if a NOT stands before it. */
  function Infix(ts: Tokens, pos: nat, err: bool, left: Expr, min: int, prec: int, isNot: bool): (r: Result<Expr>)
    requires Terminated(ts) && pos < |ts|
    requires ts[pos] == TIn || ts[pos] == TBetween || ts[pos].TOp?
    ensures pos <= r.pos < |ts|
    decreases |ts| - pos, 0
  {
    match ts[pos]
    case TIn =>
      var (pos1, err1) := Expect(ts, pos + 1, err, TLeftParen);
      var r := Items(ts, pos1, err1, []);
      if r.tree.None? then Result(None, r.pos, r.err)
      else
        var (pos2, err2) := Expect(ts, r.pos, r.err, TRightParen);
        Climb(ts, pos2, err2, In(left, r.tree.value, isNot), min)
    case TBetween =>
      var low := Prec(ts, pos + 1, err, prec + 1);
      if low.tree.None? then low
      else
        var (pos1, err1) := Expect(ts, low.pos, low.err, TOp(And));
        var high := Prec(ts, pos1, err1, prec + 1);
        if high.tree.None? then high
        else Climb(ts, high.pos, high.err, Between(left, low.tree.value, high.tree.value, isNot), min)
    case TOp(LikeOp) =>
      var r := Primary(ts, pos + 1, err);
      if r.tree.None? then r
      else Climb(ts, r.pos, r.err, LikeOf(left, r.tree.value, isNot), min)
    case TOp(op) =>
      var r := Prec(ts, pos + 1, err, prec + 1);
      if r.tree.None? then r else Climb(ts, r.pos, r.err, Binary(op, left, r.tree.value), min)
    case _ => Result(None, pos, err)
  }
}
