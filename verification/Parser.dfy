/** The recursive descent over a cursor (src/parser/parser.c), each routine against its function. */
module Parser {
  import opened Wrappers
  import opened ExpressionGrammar
  import opened PrattParser
  import opened PrattPrinted
  import opened PrattRoundTrip
  import G = PrattGrouping

  class Parser {
    const tokens: Tokens
    var pos: nat
    var hasError: bool

    constructor (tokens: Tokens)
      ensures this.tokens == tokens && pos == 0 && !hasError
    {
      this.tokens := tokens;
      pos, hasError := 0, false;
    }

    ghost predicate Valid()
      reads this
    {
      Terminated(tokens) && pos < |tokens|
    }

    /** What a routine that returns `tree` leaves behind. */
    ghost function After<T>(tree: Option<T>): Result<T>
      reads this
    {
      Result(tree, pos, hasError)
    }

    method Match(t: Token) returns (matched: bool)
      requires Valid() && t != TEof
      modifies this
      ensures Valid() && hasError == old(hasError)
      ensures matched == (tokens[old(pos)] == t)
      ensures pos == if matched then old(pos) + 1 else old(pos)
    {
      matched := tokens[pos] == t;
      if matched {
        pos := pos + 1;
      }
    }

    method ExpectToken(t: Token)
      requires Valid() && t != TEof
      modifies this
      ensures Valid() && (pos, hasError) == Expect(tokens, old(pos), old(hasError), t)
    {
      if tokens[pos] == t {
        pos := pos + 1;
      } else {
        hasError := true;
      }
    }

    method ParseColumnRef() returns (tree: Option<Expr>)
      requires Valid() && !hasError && tokens[pos].TIdent? && PeekNext(tokens, pos) != TLeftParen
      modifies this
      ensures Valid() && After(tree) == Primary(tokens, old(pos), old(hasError))
    {
      var table, column := "", Truncated(tokens[pos].name);
      pos := pos + 1;
      if tokens[pos] == TDot {
        pos := pos + 1;
        table := Truncated(column);
        match tokens[pos] {
          case TIdent(name) => column := Truncated(name);
          case TOp(Mul) => column := "*";
          case _ =>
            hasError := true;
            return None;
        }
        pos := pos + 1;
      }
      tree := Some(Column(table, column));
    }

    /** The loop over a comma-separated list. */
    method ParseItems() returns (items: Option<seq<Expr>>)
      requires Valid()
      modifies this
      ensures Valid() && old(pos) <= pos && After(items) == Items(tokens, old(pos), old(hasError), [])
      decreases |tokens| - pos, 3
    {
      var list: seq<Expr> := [];
      while true
        invariant Valid() && old(pos) <= pos
        invariant Items(tokens, pos, hasError, list) == Items(tokens, old(pos), old(hasError), [])
        decreases |tokens| - pos
      {
        var item := ParseExpressionPrec(1);
        if item.None? {
          return None;
        }
        var comma := Match(TComma);
        if !comma {
          return Some(list + [item.value]);
        }
        list := list + [item.value];
      }
    }

    method ParseFunctionCall(name: string) returns (tree: Option<Expr>)
      requires Valid() && !hasError
      modifies this
      ensures Valid() && old(pos) <= pos && After(tree) == CallOf(tokens, old(pos), name)
      decreases |tokens| - pos, 4
    {
      var args, isStar := [], false;
      ExpectToken(TLeftParen);
      if tokens[pos] == TOp(Mul) {
        isStar := true;
        pos := pos + 1;
      } else if tokens[pos] != TRightParen {
        var items := ParseItems();
        if items.None? {
          return None;
        }
        args := items.value;
      }
      ExpectToken(TRightParen);
      tree := Some(Call(name, args, isStar));
    }

    method ParsePrimary() returns (tree: Option<Expr>)
      requires Valid()
      modifies this
      ensures Valid() && old(pos) <= pos && After(tree) == Primary(tokens, old(pos), old(hasError))
      decreases |tokens| - pos, 1
    {
      if hasError {
        return None;
      }
      var t := tokens[pos];
      match t {
        case TLit(v) =>
          pos := pos + 1;
          tree := Some(Lit(v));
        case TLeftParen =>
          pos := pos + 1;
          tree := ParseExpressionPrec(1);
          ExpectToken(TRightParen);
        case TOp(Minus) =>
          pos := pos + 1;
          var operand := ParsePrimary();
          tree := if operand.None? then None else Some(Neg(operand.value));
        case TNot =>
          pos := pos + 1;
          var operand := ParseExpressionPrec(3);
          tree := if operand.None? then None else Some(Not(operand.value));
        case TAggregate(name) =>
          pos := pos + 1;
          tree := ParseFunctionCall(Truncated(name));
        case TIdent(name) =>
          if PeekNext(tokens, pos) == TLeftParen {
            pos := pos + 1;
            tree := ParseFunctionCall(Truncated(name));
          } else {
            tree := ParseColumnRef();
          }
        case TOp(Mul) =>
          pos := pos + 1;
          tree := Some(Column("", "*"));
        case _ =>
          hasError := true;
          tree := None;
      }
    }

    /** The operators behind `left`, one by one: what the loop still has to do never changes. */
    method ParseExpressionPrec(min: int) returns (tree: Option<Expr>)
      requires Valid()
      modifies this
      ensures Valid() && old(pos) <= pos && After(tree) == Prec(tokens, old(pos), old(hasError), min)
      decreases |tokens| - pos, 2
    {
      var first := ParsePrimary();
      if first.None? {
        return None;
      }
      var left := first.value;
      while true
        invariant Valid() && old(pos) < pos
        invariant Climb(tokens, pos, hasError, left, min) == Prec(tokens, old(pos), old(hasError), min)
        decreases |tokens| - pos
      {
        var prec := Precedence(tokens[pos]);
        if prec == 0 || prec < min {
          return Some(left);
        }
        if tokens[pos] == TNot && !NegatesInfix(tokens, pos) {
          return Some(left);
        }
        var next := ParseInfix(left, min);
        if next.None? {
          return None;
        }
        left := next.value;
      }
    }

    /** One turn of the loop, at an operator that binds tightly enough. */
    method ParseInfix(left: Expr, min: int) returns (next: Option<Expr>)
      requires Valid() && Precedence(tokens[pos]) != 0 && min <= Precedence(tokens[pos])
      requires tokens[pos] == TNot ==> NegatesInfix(tokens, pos)
      modifies this
      ensures Continues(next, min, old(pos), Climb(tokens, old(pos), old(hasError), left, min))
      decreases |tokens| - pos, 1
    {
      var prec := Precedence(tokens[pos]);
      if tokens[pos] == TIs {
        next := ParseIs(left, min);
        return;
      }
      var isNot := tokens[pos] == TNot;
      if isNot {
        pos := pos + 1;
      }
      match tokens[pos] {
        case TIn => next := ParseIn(left, min, prec, isNot);
        case TBetween => next := ParseBetween(left, min, prec, isNot);
        case TOp(LikeOp) => next := ParseLike(left, min, prec, isNot);
        case TOp(op) => next := ParseOperator(op, left, min, prec, isNot);
      }
    }

    /** The operator was consumed and the tree built from it is the new left operand. */
    ghost predicate Continues(next: Option<Expr>, min: int, was: nat, whole: Result<Expr>)
      reads this
    {
      && Valid() && was < pos
      && whole == if next.None? then After(None) else Climb(tokens, pos, hasError, next.value, min)
    }

    method ParseIs(left: Expr, min: int) returns (next: Option<Expr>)
      requires Valid() && tokens[pos] == TIs && min <= Precedence(TIs)
      modifies this
      ensures Continues(next, min, old(pos), Climb(tokens, old(pos), old(hasError), left, min))
      decreases |tokens| - pos, 0
    {
      pos := pos + 1;
      var isNot := Match(TNot);
      if tokens[pos] == TLit(LNull) {
        pos := pos + 1;
        next := Some(IsNull(left, isNot));
      } else {
        var right := ParseExpressionPrec(Precedence(TIs) + 1);
        next := if right.None? then None else Some(Binary(if isNot then Ne else Eq, left, right.value));
      }
    }

    method ParseIn(left: Expr, min: int, prec: int, isNot: bool) returns (next: Option<Expr>)
      requires Valid() && tokens[pos] == TIn
      modifies this
      ensures Continues(next, min, old(pos), Infix(tokens, old(pos), old(hasError), left, min, prec, isNot))
      decreases |tokens| - pos, 0
    {
      pos := pos + 1;
      ExpectToken(TLeftParen);
      var items := ParseItems();
      if items.None? {
        return None;
      }
      ExpectToken(TRightParen);
      next := Some(In(left, items.value, isNot));
    }

    method ParseBetween(left: Expr, min: int, prec: int, isNot: bool) returns (next: Option<Expr>)
      requires Valid() && tokens[pos] == TBetween
      modifies this
      ensures Continues(next, min, old(pos), Infix(tokens, old(pos), old(hasError), left, min, prec, isNot))
      decreases |tokens| - pos, 0
    {
      pos := pos + 1;
      var low := ParseExpressionPrec(prec + 1);
      if low.None? {
        return None;
      }
      ExpectToken(TOp(And));
      var high := ParseExpressionPrec(prec + 1);
      next := if high.None? then None else Some(Between(left, low.value, high.value, isNot));
    }

    method ParseLike(left: Expr, min: int, prec: int, isNot: bool) returns (next: Option<Expr>)
      requires Valid() && tokens[pos] == TOp(LikeOp)
      modifies this
      ensures Continues(next, min, old(pos), Infix(tokens, old(pos), old(hasError), left, min, prec, isNot))
      decreases |tokens| - pos, 0
    {
      pos := pos + 1;
      var pattern := ParsePrimary();
      next := if pattern.None? then None else Some(LikeOf(left, pattern.value, isNot));
    }

    method ParseOperator(op: Op, left: Expr, min: int, prec: int, isNot: bool) returns (next: Option<Expr>)
      requires Valid() && tokens[pos] == TOp(op) && op != LikeOp
      modifies this
      ensures Continues(next, min, old(pos), Infix(tokens, old(pos), old(hasError), left, min, prec, isNot))
      decreases |tokens| - pos, 0
    {
      pos := pos + 1;
      var right := ParseExpressionPrec(prec + 1);
      next := if right.None? then None else Some(Binary(op, left, right.value));
    }
  }

  /** The parser run on `x first y second z`. */
  method ParseTwoOperators(x: Literal, first: Op, y: Literal, second: Op, z: Literal) returns (tree: Option<Expr>)
    ensures tree == Some(if G.SecondFirst(first, second) then G.Joined(first, Lit(x), G.Joined(second, Lit(y), Lit(z)))
                         else G.Joined(second, G.Joined(first, Lit(x), Lit(y)), Lit(z)))
  {
    var ts := [TLit(x), TOp(first), TLit(y), TOp(second), TLit(z), TEof];
    G.TwoOperators(ts, 0, Lit(x), 1, first, Lit(y), 3, second, Lit(z), 5);
    var p := new Parser(ts);
    tree := p.ParseExpressionPrec(1);
  }

  /** The parser run on the printed form of a tree returns that tree and stops in front of what follows. */
  method ParsePrinted(e: Expr, behind: Tokens) returns (tree: Option<Expr>, pos: nat)
    requires Printable(e) && Terminated(behind)
    requires Precedence(behind[0]) == 0 && Ends(behind[0])
    ensures tree == Some(e) && pos <= |Show(e, 1, behind)| && Show(e, 1, behind)[pos..] == behind
  {
    var ts := Show(e, 1, behind);
    ReadsShown(ts, 0, e, behind);
    var p := new Parser(ts);
    tree := p.ParseExpressionPrec(1);
    pos := p.pos;
  }
}
