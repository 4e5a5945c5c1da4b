/** Any number of operators between primaries, without parentheses (src/parser/parser.c): which one is the root. */
module PrattChains {
  import opened Wrappers
  import opened ExpressionGrammar
  import opened PrattParser
  import opened PrattRoundTrip
  import opened PrattParentheses
  import opened PrattGrouping

  /** `es[0] ops[0] es[1] ops[1] ..` in front of `rest`. */
  function Flat(es: seq<Expr>, ops: seq<Op>, rest: seq<Token>): seq<Token>
    requires |es| == |ops| + 1
  {
    if ops == [] then Show(es[0], PRIMARY, rest)
    else Show(es[0], PRIMARY, [TOp(ops[0])] + Flat(es[1..], ops[1..], rest))
  }

  /** The last of the operators that bind least tightly. */
  function Root(ops: seq<Op>): (r: nat)
    requires ops != []
    ensures r < |ops|
  {
    var n := |ops| - 1;
    if n == 0 then 0
    else
      var r := Root(ops[..n]);
      if SecondFirst(ops[r], ops[n]) then r else n
  }

  /** The root splits the chain; the chains on both sides are trees of their own. */
  function Tree(es: seq<Expr>, ops: seq<Op>): Expr
    requires |es| == |ops| + 1
    decreases |ops|
  {
    if ops == [] then es[0]
    else
      var r := Root(ops);
      Binary(ops[r], Tree(es[..r + 1], ops[..r]), Tree(es[r + 1..], ops[r + 1..]))
  }

  ghost predicate NoLike(ops: seq<Op>) {
    forall i {:trigger ops[i]} :: 0 <= i < |ops| ==> ops[i] != LikeOp
  }

  /** What stands before the root binds no less tightly, what stands behind it more tightly. */
  lemma {:induction false} RootSplits(ops: seq<Op>)
    requires ops != [] && NoLike(ops)
    ensures var r := Root(ops);
            && (forall j {:trigger ops[j]} :: 0 <= j < r ==> !SecondFirst(ops[j], ops[r]))
            && (forall j {:trigger ops[j]} :: r < j < |ops| ==> SecondFirst(ops[r], ops[j]))
  {
    var n := |ops| - 1;
    if n > 0 {
      RootSplits(ops[..n]);
      var r := Root(ops[..n]);
      forall j {:trigger ops[j]} | 0 <= j < n
        ensures j < r ==> !SecondFirst(ops[j], ops[r])
        ensures j > r ==> SecondFirst(ops[r], ops[j])
      {
        assert ops[..n][j] == ops[j];
      }
    }
  }

  lemma {:induction false} FlatSplits(es: seq<Expr>, ops: seq<Op>, r: nat, rest: seq<Token>)
    requires |es| == |ops| + 1 && r < |ops|
    ensures Flat(es, ops, rest) == Flat(es[..r + 1], ops[..r], [TOp(ops[r])] + Flat(es[r + 1..], ops[r + 1..], rest))
    decreases r
  {
    if r > 0 {
      FlatSplits(es[1..], ops[1..], r - 1, rest);
      assert es[1..][..r] == es[..r + 1][1..] && ops[1..][..r - 1] == ops[..r][1..];
      assert es[1..][r..] == es[r + 1..] && ops[1..][r..] == ops[r + 1..];
    }
  }

  ghost predicate Primaries(es: seq<Expr>) {
    forall i {:trigger es[i]} :: 0 <= i < |es| ==> Printable(es[i]) && Level(es[i]) == PRIMARY
  }

  lemma TreeLevel(es: seq<Expr>, ops: seq<Op>)
    requires |es| == |ops| + 1 && Primaries(es)
    ensures Level(Tree(es, ops)) == if ops == [] then PRIMARY else OpPrecedence(ops[Root(ops)])
  {
  }

  lemma {:induction false} TreePrintable(es: seq<Expr>, ops: seq<Op>)
    requires |es| == |ops| + 1 && Primaries(es) && NoLike(ops)
    ensures Printable(Tree(es, ops))
    decreases |ops|
  {
    if ops != [] {
      var r := Root(ops);
      TreePrintable(es[..r + 1], ops[..r]);
      TreePrintable(es[r + 1..], ops[r + 1..]);
    }
  }

  lemma Levels(a: Op, b: Op)
    requires a != LikeOp
    ensures SecondFirst(a, b) ==> OpPrecedence(b) >= RightLevel(a)
    ensures !SecondFirst(a, b) ==> OpPrecedence(a) >= OpPrecedence(b)
  {
  }

  lemma LeftRootBinds(ops: seq<Op>)
    requires NoLike(ops) && ops != [] && Root(ops) > 0
    ensures var left := ops[..Root(ops)]; OpPrecedence(left[Root(left)]) >= OpPrecedence(ops[Root(ops)])
  {
    RootSplits(ops);
    var left := ops[..Root(ops)];
    assert left[Root(left)] == ops[Root(left)];
    Levels(ops[Root(left)], ops[Root(ops)]);
  }

  lemma RightRootBinds(ops: seq<Op>)
    requires NoLike(ops) && ops != [] && Root(ops) + 1 < |ops|
    ensures var right := ops[Root(ops) + 1..]; OpPrecedence(right[Root(right)]) >= RightLevel(ops[Root(ops)])
  {
    RootSplits(ops);
    var right := ops[Root(ops) + 1..];
    assert right[Root(right)] == ops[Root(ops) + 1 + Root(right)];
    Levels(ops[Root(ops)], right[Root(right)]);
  }

  /** Neither side of the root needs parentheses. */
  lemma LeftBinds(es: seq<Expr>, ops: seq<Op>)
    requires |es| == |ops| + 1 && Primaries(es) && NoLike(ops) && ops != []
    ensures Level(Tree(es[..Root(ops) + 1], ops[..Root(ops)])) >= OpPrecedence(ops[Root(ops)])
  {
    TreeLevel(es[..Root(ops) + 1], ops[..Root(ops)]);
    if Root(ops) > 0 {
      LeftRootBinds(ops);
    }
  }

  lemma RightBinds(es: seq<Expr>, ops: seq<Op>)
    requires |es| == |ops| + 1 && Primaries(es) && NoLike(ops) && ops != []
    ensures Level(Tree(es[Root(ops) + 1..], ops[Root(ops) + 1..])) >= RightLevel(ops[Root(ops)])
  {
    TreeLevel(es[Root(ops) + 1..], ops[Root(ops) + 1..]);
    if Root(ops) + 1 < |ops| {
      RightRootBinds(ops);
    }
  }

  /** The tree is printed as the chain, without a single parenthesis of its own. */
  lemma {:induction false} TreeIsFlat(es: seq<Expr>, ops: seq<Op>, m: int, rest: seq<Token>)
    requires |es| == |ops| + 1 && Primaries(es) && NoLike(ops) && m <= Level(Tree(es, ops))
    ensures Show(Tree(es, ops), m, rest) == Flat(es, ops, rest)
    decreases |ops|, 1
  {
    if ops == [] {
      ShowBare(es[0], m, PRIMARY, rest);
    } else {
      var r := Root(ops);
      var right := RightIsFlat(es, ops, rest);
      LeftIsFlat(es, ops, [TOp(ops[r])] + right);
      FlatSplits(es, ops, r, rest);
      ShowBinary(ops[r], Tree(es[..r + 1], ops[..r]), Tree(es[r + 1..], ops[r + 1..]), m, rest);
    }
  }

  lemma {:induction false} LeftIsFlat(es: seq<Expr>, ops: seq<Op>, rest: seq<Token>)
    requires |es| == |ops| + 1 && Primaries(es) && NoLike(ops) && ops != []
    ensures var r := Root(ops);
            Show(Tree(es[..r + 1], ops[..r]), OpPrecedence(ops[r]), rest) == Flat(es[..r + 1], ops[..r], rest)
    decreases |ops|, 0
  {
    LeftBinds(es, ops);
    TreeIsFlat(es[..Root(ops) + 1], ops[..Root(ops)], OpPrecedence(ops[Root(ops)]), rest);
  }

  lemma {:induction false} RightIsFlat(es: seq<Expr>, ops: seq<Op>, rest: seq<Token>) returns (right: seq<Token>)
    requires |es| == |ops| + 1 && Primaries(es) && NoLike(ops) && ops != []
    ensures var r := Root(ops);
            right == Show(Tree(es[r + 1..], ops[r + 1..]), RightLevel(ops[r]), rest) == Flat(es[r + 1..], ops[r + 1..], rest)
    decreases |ops|, 0
  {
    RightBinds(es, ops);
    TreeIsFlat(es[Root(ops) + 1..], ops[Root(ops) + 1..], RightLevel(ops[Root(ops)]), rest);
    right := Flat(es[Root(ops) + 1..], ops[Root(ops) + 1..], rest);
  }

  /** A chain of operators is read as the tree whose root is the last of the operators that bind least tightly. */
  lemma ChainReads(es: seq<Expr>, ops: seq<Op>)
    requires |es| == |ops| + 1 && Primaries(es) && NoLike(ops)
    ensures var ts := Flat(es, ops, [TEof]);
            Terminated(ts) && Prec(ts, 0, false, 1) == Result(Some(Tree(es, ops)), |ts| - 1, false)
  {
    TreePrintable(es, ops);
    TreeLevel(es, ops);
    TreeIsFlat(es, ops, 1, [TEof]);
    RoundTrip([], Tree(es, ops), [TEof]);
    assert [] + Show(Tree(es, ops), 1, [TEof]) == Show(Tree(es, ops), 1, [TEof]);
  }
}
