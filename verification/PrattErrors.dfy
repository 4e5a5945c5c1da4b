/** What it takes to be read without an error (src/parser/parser.c): every parenthesis that is opened is closed. */
module PrattErrors {
  import opened Wrappers
  import opened ExpressionGrammar
  import opened PrattParser

  /** Parentheses opened less parentheses closed from `i` up to `n`. */
  function Depth(ts: Tokens, i: nat, n: nat): int
    requires i <= n <= |ts|
    decreases n
  {
    if i == n then 0
    else Depth(ts, i, n - 1) + if ts[n - 1] == TLeftParen then 1 else if ts[n - 1] == TRightParen then -1 else 0
  }

  /** From `i` up to `n` every parenthesis has its partner. */
  ghost predicate Balanced(ts: Tokens, i: nat, n: nat) {
    i <= n <= |ts| && Depth(ts, i, n) == 0 && forall k {:trigger Depth(ts, i, k)} :: i <= k <= n ==> Depth(ts, i, k) >= 0
  }

  lemma {:induction false} DepthAdds(ts: Tokens, i: nat, k: nat, n: nat)
    requires i <= k <= n <= |ts|
    ensures Depth(ts, i, n) == Depth(ts, i, k) + Depth(ts, k, n)
    decreases n
  {
    if k < n {
      DepthAdds(ts, i, k, n - 1);
    }
  }

  lemma Joined(ts: Tokens, i: nat, k: nat, n: nat)
    requires Balanced(ts, i, k) && Balanced(ts, k, n)
    ensures Balanced(ts, i, n)
  {
    forall m {:trigger Depth(ts, i, m)} | i <= m <= n ensures Depth(ts, i, m) >= 0 {
      if m > k {
        DepthAdds(ts, i, k, m);
        assert Depth(ts, k, m) >= 0;
      }
    }
    DepthAdds(ts, i, k, n);
  }

  lemma OneToken(ts: Tokens, i: nat)
    requires i < |ts| && ts[i] != TLeftParen && ts[i] != TRightParen
    ensures Balanced(ts, i, i + 1)
  {
    assert Depth(ts, i, i) == 0;
  }

  lemma ThenToken(ts: Tokens, i: nat, n: nat)
    requires Balanced(ts, i, n) && n < |ts| && ts[n] != TLeftParen && ts[n] != TRightParen
    ensures Balanced(ts, i, n + 1)
  {
    OneToken(ts, n);
    Joined(ts, i, n, n + 1);
  }

  lemma Paired(ts: Tokens, i: nat, n: nat)
    requires i < |ts| && ts[i] == TLeftParen && Balanced(ts, i + 1, n) && n < |ts| && ts[n] == TRightParen
    ensures Balanced(ts, i, n + 1)
  {
    assert Depth(ts, i, i) == 0 && Depth(ts, i, i + 1) == 1;
    forall m {:trigger Depth(ts, i, m)} | i <= m <= n ensures Depth(ts, i, m) >= 0 {
      if m > i {
        DepthAdds(ts, i, i + 1, m);
        assert Depth(ts, i + 1, m) >= 0;
      }
    }
    DepthAdds(ts, i, i + 1, n);
  }

  /** Without an error there is a tree, there was no error before, and what was read is balanced. */
  ghost predicate Sound<T>(ts: Tokens, i: nat, err: bool, r: Result<T>) {
    !r.err ==> !err && r.tree.Some? && Balanced(ts, i, r.pos)
  }

  lemma {:induction false} PrimarySound(ts: Tokens, pos: nat, err: bool)
    requires Terminated(ts) && pos < |ts|
    ensures Sound(ts, pos, err, Primary(ts, pos, err))
    decreases |ts| - pos, 1
  {
    if !err && !Primary(ts, pos, err).err {
      match ts[pos]
      case TLeftParen =>
        PrecSound(ts, pos + 1, false, 1);
        Paired(ts, pos, Prec(ts, pos + 1, false, 1).pos);
      case TOp(Minus) =>
        PrimarySound(ts, pos + 1, false);
        OneToken(ts, pos);
        Joined(ts, pos, pos + 1, Primary(ts, pos + 1, false).pos);
      case TNot =>
        PrecSound(ts, pos + 1, false, 3);
        OneToken(ts, pos);
        Joined(ts, pos, pos + 1, Prec(ts, pos + 1, false, 3).pos);
      case TAggregate(name) => NameThenCall(ts, pos, Truncated(name));
      case TIdent(name) =>
        if PeekNext(ts, pos) == TLeftParen {
          NameThenCall(ts, pos, Truncated(name));
        } else {
          OneToken(ts, pos);
          if ts[pos + 1] == TDot {
            ThenToken(ts, pos, pos + 1);
            ThenToken(ts, pos, pos + 2);
          }
        }
      case _ => OneToken(ts, pos);
    }
  }

  lemma {:induction false} NameThenCall(ts: Tokens, pos: nat, name: string)
    requires Terminated(ts) && pos + 1 < |ts| && ts[pos] != TLeftParen && ts[pos] != TRightParen
    ensures Sound(ts, pos, false, CallOf(ts, pos + 1, name))
    decreases |ts| - pos, 0
  {
    CallSound(ts, pos + 1, name);
    if !CallOf(ts, pos + 1, name).err {
      OneToken(ts, pos);
      Joined(ts, pos, pos + 1, CallOf(ts, pos + 1, name).pos);
    }
  }

  lemma {:induction false} CallSound(ts: Tokens, pos: nat, name: string)
    requires Terminated(ts) && pos < |ts|
    ensures Sound(ts, pos, false, CallOf(ts, pos, name))
    decreases |ts| - pos, 5
  {
    if !CallOf(ts, pos, name).err {
      var pos1 := pos + 1;
      if ts[pos] == TLeftParen {
        if ts[pos1] == TOp(Mul) {
          OneToken(ts, pos1);
          Paired(ts, pos, pos1 + 1);
        } else if ts[pos1] == TRightParen {
          assert Depth(ts, pos1, pos1) == 0;
          Paired(ts, pos, pos1);
        } else {
          ItemsSound(ts, pos1, false, []);
          Paired(ts, pos, Items(ts, pos1, false, []).pos);
        }
      } else {
        CallWithoutParen(ts, pos, name);
      }
    }
  }

  /** A missing parenthesis is never forgotten. */
  lemma {:induction false} CallWithoutParen(ts: Tokens, pos: nat, name: string)
    requires Terminated(ts) && pos < |ts| && ts[pos] != TLeftParen
    ensures CallOf(ts, pos, name).err
    decreases |ts| - pos, 4
  {
    if ts[pos] != TOp(Mul) && ts[pos] != TRightParen {
      ItemsSound(ts, pos, true, []);
    }
  }

  lemma {:induction false} ItemsSound(ts: Tokens, pos: nat, err: bool, acc: seq<Expr>)
    requires Terminated(ts) && pos < |ts|
    ensures Sound(ts, pos, err, Items(ts, pos, err, acc))
    decreases |ts| - pos, 3
  {
    PrecSound(ts, pos, err, 1);
    var r := Prec(ts, pos, err, 1);
    if r.tree.Some? && ts[r.pos] == TComma {
      ItemsSound(ts, r.pos + 1, r.err, acc + [r.tree.value]);
      if !r.err && !Items(ts, pos, err, acc).err {
        ThenToken(ts, pos, r.pos);
        Joined(ts, pos, r.pos + 1, Items(ts, r.pos + 1, r.err, acc + [r.tree.value]).pos);
      }
    }
  }

  /** parse_expression_prec: an error is raised and kept unless the parentheses of what was read are balanced. */
  lemma {:induction false} PrecSound(ts: Tokens, pos: nat, err: bool, min: int)
    requires Terminated(ts) && pos < |ts|
    ensures Sound(ts, pos, err, Prec(ts, pos, err, min))
    decreases |ts| - pos, 2
  {
    PrimarySound(ts, pos, err);
    var r := Primary(ts, pos, err);
    if r.tree.Some? {
      ClimbSound(ts, r.pos, r.err, r.tree.value, min);
      if !Prec(ts, pos, err, min).err {
        Joined(ts, pos, r.pos, Prec(ts, pos, err, min).pos);
      }
    }
  }

  lemma Nothing(ts: Tokens, pos: nat)
    requires pos <= |ts|
    ensures Balanced(ts, pos, pos)
  {
    assert Depth(ts, pos, pos) == 0;
  }

  lemma {:induction false} ClimbSound(ts: Tokens, pos: nat, err: bool, left: Expr, min: int)
    requires Terminated(ts) && pos < |ts|
    ensures Sound(ts, pos, err, Climb(ts, pos, err, left, min))
    decreases |ts| - pos, 3
  {
    var t := ts[pos];
    var prec := Precedence(t);
    Nothing(ts, pos);
    if prec != 0 && prec >= min {
      if t == TIs {
        IsSound(ts, pos, err, left, min);
      } else if t == TNot {
        if NegatesInfix(ts, pos) {
          InfixSound(ts, pos + 1, err, left, min, prec, true);
          if !Climb(ts, pos, err, left, min).err {
            OneToken(ts, pos);
            Joined(ts, pos, pos + 1, Climb(ts, pos, err, left, min).pos);
          }
        }
      } else {
        InfixSound(ts, pos, err, left, min, prec, false);
      }
    }
  }

  lemma {:induction false} IsSound(ts: Tokens, pos: nat, err: bool, left: Expr, min: int)
    requires Terminated(ts) && pos < |ts| && ts[pos] == TIs && min <= 4
    ensures Sound(ts, pos, err, Climb(ts, pos, err, left, min))
    decreases |ts| - pos, 1
  {
    var isNot := ts[pos + 1] == TNot;
    var pos1 := if isNot then pos + 2 else pos + 1;
    OneToken(ts, pos);
    if isNot { ThenToken(ts, pos, pos + 1); }
    if ts[pos1] == TLit(LNull) {
      ThenToken(ts, pos, pos1);
      ClimbSound(ts, pos1 + 1, err, IsNull(left, isNot), min);
      if !Climb(ts, pos, err, left, min).err {
        Joined(ts, pos, pos1 + 1, Climb(ts, pos, err, left, min).pos);
      }
    } else {
      PrecSound(ts, pos1, err, 5);
      var r := Prec(ts, pos1, err, 5);
      if r.tree.Some? {
        RestSound(ts, pos, err, pos1, r, Binary(if isNot then Ne else Eq, left, r.tree.value), min);
      }
    }
  }

  /** What was read last, and the climbing behind it. */
  lemma {:induction false} RestSound<T>(ts: Tokens, pos: nat, err: bool, k: nat, r: Result<T>, left: Expr, min: int)
    requires Terminated(ts) && pos < k <= r.pos < |ts| && Balanced(ts, pos, k) && Sound(ts, k, err, r)
    ensures Sound(ts, pos, err, Climb(ts, r.pos, r.err, left, min))
    decreases |ts| - pos, 0
  {
    ClimbSound(ts, r.pos, r.err, left, min);
    if !Climb(ts, r.pos, r.err, left, min).err {
      Joined(ts, pos, k, r.pos);
      Joined(ts, pos, r.pos, Climb(ts, r.pos, r.err, left, min).pos);
    }
  }

  lemma {:induction false} InfixSound(ts: Tokens, pos: nat, err: bool, left: Expr, min: int, prec: int, isNot: bool)
    requires Terminated(ts) && pos < |ts|
    requires ts[pos] == TIn || ts[pos] == TBetween || ts[pos].TOp?
    ensures Sound(ts, pos, err, Infix(ts, pos, err, left, min, prec, isNot))
    decreases |ts| - pos, 2
  {
    match ts[pos]
    case TIn => InSound(ts, pos, err, left, min, prec, isNot);
    case TBetween => BetweenSound(ts, pos, err, left, min, prec, isNot);
    case TOp(op) => OperatorSound(ts, pos, err, op, left, min, prec, isNot);
  }

  lemma {:induction false} OperatorSound(ts: Tokens, pos: nat, err: bool, op: Op, left: Expr, min: int, prec: int, isNot: bool)
    requires Terminated(ts) && pos < |ts| && ts[pos] == TOp(op)
    ensures Sound(ts, pos, err, Infix(ts, pos, err, left, min, prec, isNot))
    decreases |ts| - pos, 1
  {
    OneToken(ts, pos);
    var r := if op == LikeOp then Primary(ts, pos + 1, err) else Prec(ts, pos + 1, err, prec + 1);
    if op == LikeOp {
      PrimarySound(ts, pos + 1, err);
    } else {
      PrecSound(ts, pos + 1, err, prec + 1);
    }
    if r.tree.Some? {
      var e := if op == LikeOp then LikeOf(left, r.tree.value, isNot) else Binary(op, left, r.tree.value);
      RestSound(ts, pos, err, pos + 1, r, e, min);
    }
  }

  lemma {:induction false} InSound(ts: Tokens, pos: nat, err: bool, left: Expr, min: int, prec: int, isNot: bool)
    requires Terminated(ts) && pos < |ts| && ts[pos] == TIn
    ensures Sound(ts, pos, err, Infix(ts, pos, err, left, min, prec, isNot))
    decreases |ts| - pos, 1
  {
    OneToken(ts, pos);
    var (pos1, err1) := Expect(ts, pos + 1, err, TLeftParen);
    ItemsSound(ts, pos1, err1, []);
    var r := Items(ts, pos1, err1, []);
    if r.tree.Some? {
      var (pos2, err2) := Expect(ts, r.pos, r.err, TRightParen);
      var e := In(left, r.tree.value, isNot);
      if err2 {
        ClimbSound(ts, pos2, err2, e, min);
      } else {
        Paired(ts, pos + 1, r.pos);
        RestSound(ts, pos, err, pos + 1, Result(Some(e), pos2, false), e, min);
      }
    }
  }

  lemma {:induction false} BetweenSound(ts: Tokens, pos: nat, err: bool, left: Expr, min: int, prec: int, isNot: bool)
    requires Terminated(ts) && pos < |ts| && ts[pos] == TBetween
    ensures Sound(ts, pos, err, Infix(ts, pos, err, left, min, prec, isNot))
    decreases |ts| - pos, 1
  {
    OneToken(ts, pos);
    PrecSound(ts, pos + 1, err, prec + 1);
    var low := Prec(ts, pos + 1, err, prec + 1);
    if low.tree.Some? {
      var (pos1, err1) := Expect(ts, low.pos, low.err, TOp(And));
      PrecSound(ts, pos1, err1, prec + 1);
      var high := Prec(ts, pos1, err1, prec + 1);
      if high.tree.Some? {
        var e := Between(left, low.tree.value, high.tree.value, isNot);
        if high.err {
          ClimbSound(ts, high.pos, true, e, min);
        } else {
          Joined(ts, pos, pos + 1, low.pos);
          ThenToken(ts, pos, low.pos);
          RestSound(ts, pos, err, pos1, high, e, min);
        }
      }
    }
  }
}
