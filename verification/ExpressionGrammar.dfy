/** Tokens, expression trees and the printed form of a tree (src/parser/token.h, src/parser/ast.h). */
module ExpressionGrammar {

  datatype Op = Or | And | Eq | Ne | Lt | Le | Gt | Ge | LikeOp | Add | Minus | Mul | Div

  datatype Literal = LNull | LBool(b: bool) | LInt(i: int) | LFloat(bits: int) | LString(s: string)

  /** A token with its decoded payload.  Minus is also the unary minus and Mul the star. */
  datatype Token =
    | TLit(v: Literal) | TIdent(name: string) | TAggregate(name: string)
    | TOp(op: Op) | TNot | TIs | TIn | TBetween
    | TLeftParen | TRightParen | TComma | TDot
    | TOther(keyword: string) | TEof

  datatype Expr =
    | Lit(v: Literal)
    | Column(table: string, column: string)
    | Binary(op: Op, left: Expr, right: Expr)
    | Neg(operand: Expr)
    | Not(operand: Expr)
    | Call(name: string, args: seq<Expr>, isStar: bool)
    | IsNull(operand: Expr, isNot: bool)
    | In(left: Expr, list: seq<Expr>, isNot: bool)
    | Between(operand: Expr, low: Expr, high: Expr, isNot: bool)
    | Like(operand: Expr, pattern: string, isNot: bool)

  const NAME_MAX: int := 63

  function OpPrecedence(op: Op): int {
    match op
    case Or => 1
    case And => 2
    case Eq | Ne | Lt | Le | Gt | Ge | LikeOp => 4
    case Add | Minus => 5
    case Mul | Div => 6
  }

  /** get_precedence: 0 for tokens that are no infix operators. */
  function Precedence(t: Token): int {
    match t
    case TOp(op) => OpPrecedence(op)
    case TNot => 3
    case TIs | TIn | TBetween => 4
    case _ => 0
  }

  const PRIMARY: int := 7

  /** How tightly the outermost construct of a tree binds. */
  function Level(e: Expr): int {
    match e
    case Binary(op, _, _) => OpPrecedence(op)
    case Not(_) => 3
    case IsNull(_, _) => 4
    case In(_, _, isNot) => if isNot then 3 else 4
    case Between(_, _, _, isNot) => if isNot then 3 else 4
    case Like(_, _, isNot) => if isNot then 3 else 4
    case _ => PRIMARY
  }

  /** Infix tokens of at least this precedence would be drawn into the right end of the tree. */
  function Stop(e: Expr): int {
    match e
    case Binary(op, _, _) => if op.LikeOp? then PRIMARY + 1 else OpPrecedence(op) + 1
    case Not(_) => 3
    case Between(_, _, _, isNot) => if isNot then 4 else 5
    case _ => PRIMARY + 1
  }

  /** The level asked of the left operand of NOT IN, NOT BETWEEN, NOT LIKE (as precedence 3) and of IN,
      BETWEEN, LIKE.  A prefix NOT would swallow a following NOT IN. */
  function LeftLevel(e: Expr, isNot: bool): int {
    if isNot && !e.Not? then 3 else 4
  }

  /** The level asked of the right operand; that of a binary LIKE is read by parse_primary. */
  function RightLevel(op: Op): int {
    if op.LikeOp? then PRIMARY else OpPrecedence(op) + 1
  }

  /** The level asked of the bounds of [NOT] BETWEEN. */
  function InnerLevel(isNot: bool): int {
    if isNot then 4 else 5
  }

  /** What a printed tree consists of: tokens and subtrees, each subtree with the level asked of it. */
  datatype Parts = End | Tok(t: Token, rest: Parts) | Sub(e: Expr, min: int, rest: Parts)

  function Negation(isNot: bool, rest: Parts): Parts {
    if isNot then Tok(TNot, rest) else rest
  }

  function Upper(name: string): string {
    seq(|name|, i requires 0 <= i < |name| => if 'a' <= name[i] <= 'z' then name[i] - 'a' + 'A' else name[i])
  }

  /** The token of a function's name: five names are keywords. */
  function Callee(name: string): Token {
    if Upper(name) in {"COUNT", "SUM", "AVG", "MIN", "MAX"} then TAggregate(name) else TIdent(name)
  }

  /** The name is the word in capitals, small letters, or both. */
  predicate Spells(name: string, word: string) {
    |name| == |word| && forall i {:trigger name[i]} {:trigger word[i]} :: 0 <= i < |name| ==>
      name[i] == word[i] || name[i] as int == word[i] as int + 32
  }

  lemma UpperSpells(name: string, word: string)
    requires forall i {:trigger word[i]} :: 0 <= i < |word| ==> 'A' <= word[i] <= 'Z'
    ensures Upper(name) == word <==> Spells(name, word)
  {
    if Upper(name) == word {
      forall i {:trigger name[i]} {:trigger word[i]} | 0 <= i < |name|
        ensures name[i] == word[i] || name[i] as int == word[i] as int + 32
      {
        assert word[i] == Upper(name)[i];
      }
    }
    if Spells(name, word) {
      forall i | 0 <= i < |name| ensures Upper(name)[i] == word[i] {
        assert name[i] == word[i] || name[i] as int == word[i] as int + 32;
      }
    }
  }

  /** The five names are keywords however they are spelt. */
  lemma KeywordNames(name: string)
    ensures Callee(name) == if Spells(name, "COUNT") || Spells(name, "SUM") || Spells(name, "AVG") || Spells(name, "MIN")
                               || Spells(name, "MAX")
                            then TAggregate(name) else TIdent(name)
  {
    UpperSpells(name, "COUNT");
    UpperSpells(name, "SUM");
    UpperSpells(name, "AVG");
    UpperSpells(name, "MIN");
    UpperSpells(name, "MAX");
  }

  /** Printed bare, the tree starts with a star. */
  predicate LeadsStar(e: Expr) {
    match e
    case Column(table, column) => table == "" && column == "*"
    case Binary(op, l, _) => Level(l) >= OpPrecedence(op) && LeadsStar(l)
    case IsNull(x, _) => Level(x) >= 4 && LeadsStar(x)
    case In(x, _, isNot) => Level(x) >= LeftLevel(x, isNot) && LeadsStar(x)
    case Between(x, _, _, isNot) => Level(x) >= LeftLevel(x, isNot) && LeadsStar(x)
    case Like(x, _, isNot) => Level(x) >= LeftLevel(x, isNot) && LeadsStar(x)
    case _ => false
  }

  function Layout(e: Expr): Parts {
    match e
    case Lit(v) => Tok(TLit(v), End)
    case Column(table, column) =>
      if table == "" then Tok(if column == "*" then TOp(Mul) else TIdent(column), End)
      else Tok(TIdent(table), Tok(TDot, Tok(if column == "*" then TOp(Mul) else TIdent(column), End)))
    case Binary(op, l, r) => Sub(l, OpPrecedence(op), Tok(TOp(op), Sub(r, RightLevel(op), End)))
    case Neg(x) => Tok(TOp(Minus), Sub(x, PRIMARY, End))
    case Not(x) => Tok(TNot, Sub(x, 3, End))
    case Call(name, args, isStar) =>
      var close := Tok(TRightParen, End);
      Tok(Callee(name), Tok(TLeftParen, if isStar then Tok(TOp(Mul), close) else LayoutArgs(args, close)))
    case IsNull(x, isNot) => Sub(x, 4, Tok(TIs, Negation(isNot, Tok(TLit(LNull), End))))
    case In(x, list, isNot) =>
      Sub(x, LeftLevel(x, isNot), Negation(isNot, Tok(TIn, Tok(TLeftParen, LayoutList(list, Tok(TRightParen, End))))))
    case Between(x, low, high, isNot) =>
      Sub(x, LeftLevel(x, isNot),
          Negation(isNot, Tok(TBetween, Sub(low, InnerLevel(isNot), Tok(TOp(And), Sub(high, InnerLevel(isNot), End))))))
    case Like(x, pattern, isNot) =>
      Sub(x, LeftLevel(x, isNot), Negation(isNot, Tok(TOp(LikeOp), Tok(TLit(LString(pattern)), End))))
  }

  function LayoutList(es: seq<Expr>, rest: Parts): Parts {
    if es == [] then rest
    else if |es| == 1 then Sub(es[0], 1, rest)
    else Sub(es[0], 1, Tok(TComma, LayoutList(es[1..], rest)))
  }

  /** A first argument that starts with a star stands in parentheses; else the call would be taken for f(*). */
  function LayoutArgs(es: seq<Expr>, rest: Parts): Parts {
    if es == [] || !LeadsStar(es[0]) then LayoutList(es, rest)
    else
      var more := if |es| == 1 then rest else Tok(TComma, LayoutList(es[1..], rest));
      Tok(TLeftParen, Sub(es[0], 1, Tok(TRightParen, more)))
  }

  function Size(e: Expr): (n: nat)
    ensures n > 0
    decreases e, 1
  {
    match e
    case Lit(_) => 1
    case Column(_, _) => 1
    case Binary(_, l, r) => 1 + Size(l) + Size(r)
    case Neg(x) => 1 + Size(x)
    case Not(x) => 1 + Size(x)
    case Call(_, args, _) => 1 + ListSize(args)
    case IsNull(x, _) => 1 + Size(x)
    case In(x, list, _) => 1 + Size(x) + ListSize(list)
    case Between(x, low, high, _) => 1 + Size(x) + Size(low) + Size(high)
    case Like(x, _, _) => 1 + Size(x)
  }

  function ListSize(es: seq<Expr>): nat
    decreases es, 0
  {
    if es == [] then 0 else Size(es[0]) + ListSize(es[1..])
  }

  function PartsSize(p: Parts): nat {
    match p
    case End => 0
    case Tok(_, rest) => PartsSize(rest)
    case Sub(e, _, rest) => Size(e) + PartsSize(rest)
  }

  lemma {:induction false} LayoutListSize(es: seq<Expr>, rest: Parts)
    ensures PartsSize(LayoutList(es, rest)) == ListSize(es) + PartsSize(rest)
    decreases |es|
  {
    if es != [] {
      LayoutListSize(es[1..], rest);
    }
  }

  lemma LayoutArgsSize(es: seq<Expr>, rest: Parts)
    ensures PartsSize(LayoutArgs(es, rest)) == ListSize(es) + PartsSize(rest)
  {
    LayoutListSize(es, rest);
    if es != [] && LeadsStar(es[0]) {
      var more := if |es| == 1 then rest else Tok(TComma, LayoutList(es[1..], rest));
      LayoutListSize(es[1..], rest);
      assert PartsSize(more) == ListSize(es[1..]) + PartsSize(rest);
      assert PartsSize(Sub(es[0], 1, Tok(TRightParen, more))) == Size(es[0]) + PartsSize(Tok(TRightParen, more));
    }
  }

  lemma NegationSize(isNot: bool, rest: Parts)
    ensures PartsSize(Negation(isNot, rest)) == PartsSize(rest)
  {
  }

  lemma LayoutSize(e: Expr)
    ensures PartsSize(Layout(e)) < Size(e)
  {
    match e
    case Column(table, column) =>
      if table != "" { assert PartsSize(Layout(e).rest.rest) == 0; }
    case Binary(op, l, r) =>
      assert PartsSize(Layout(e).rest.rest) == Size(r);
    case Neg(x) =>
      assert PartsSize(Layout(e).rest) == Size(x);
    case Not(x) =>
      assert PartsSize(Layout(e).rest) == Size(x);
    case Call(name, args, isStar) =>
      LayoutArgsSize(args, Tok(TRightParen, End));
    case IsNull(x, isNot) =>
      NegationSize(isNot, Tok(TLit(LNull), End));
    case In(x, list, isNot) =>
      LayoutListSize(list, Tok(TRightParen, End));
      NegationSize(isNot, Tok(TIn, Tok(TLeftParen, LayoutList(list, Tok(TRightParen, End)))));
    case Between(x, low, high, isNot) =>
      var upper := Tok(TOp(And), Sub(high, InnerLevel(isNot), End));
      assert PartsSize(upper.rest) == Size(high);
      assert PartsSize(Sub(low, InnerLevel(isNot), upper)) == Size(low) + Size(high);
      NegationSize(isNot, Tok(TBetween, Sub(low, InnerLevel(isNot), upper)));
    case Like(x, pattern, isNot) =>
      assert PartsSize(Tok(TLit(LString(pattern)), End)) == 0;
      NegationSize(isNot, Tok(TOp(LikeOp), Tok(TLit(LString(pattern)), End)));
    case _ =>
  }

  /** The tokens of a tree in front of `rest`.  The tree is parenthesised as a whole only if it binds less
      tightly than `min`. */
  function Show(e: Expr, min: int, rest: seq<Token>): seq<Token>
    decreases Size(e), 0
  {
    LayoutSize(e);
    if Level(e) < min then [TLeftParen] + ShowParts(Layout(e), [TRightParen] + rest) else ShowParts(Layout(e), rest)
  }

  function ShowParts(p: Parts, rest: seq<Token>): seq<Token>
    decreases PartsSize(p), 1, p
  {
    match p
    case End => rest
    case Tok(t, tail) => [t] + ShowParts(tail, rest)
    case Sub(e, min, tail) => Show(e, min, ShowParts(tail, rest))
  }

  /** Trees the grammar can express: names fit the name buffers, IN lists have a member, and the right
      side of a binary LIKE is no string literal, which would make it a pattern. */
  predicate Printable(e: Expr)
    decreases e, 1
  {
    match e
    case Lit(_) => true
    case Column(table, column) => |table| <= NAME_MAX && |column| <= NAME_MAX
    case Binary(op, l, r) => Printable(l) && Printable(r) && (op.LikeOp? && r.Lit? ==> !r.v.LString?)
    case Neg(x) => Printable(x)
    case Not(x) => Printable(x)
    case Call(name, args, isStar) => |name| <= NAME_MAX && (isStar ==> args == []) && AllPrintable(args)
    case IsNull(x, _) => Printable(x)
    case In(x, list, _) => Printable(x) && list != [] && AllPrintable(list)
    case Between(x, low, high, _) => Printable(x) && Printable(low) && Printable(high)
    case Like(x, _, _) => Printable(x)
  }

  predicate AllPrintable(es: seq<Expr>)
    decreases es, 0
  {
    es == [] || (Printable(es[0]) && AllPrintable(es[1..]))
  }
}
