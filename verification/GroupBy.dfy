/** What GROUP BY and the aggregate functions mean, said by the values that the rows handed out hold. */
module GroupBy {
  import opened ExpressionGrammar
  import opened QueryPlan
  import opened Aggregation

  /** The elements whose number in `of` is `g`, in order. */
  function Picked<T>(xs: seq<T>, of: seq<nat>, g: nat): seq<T>
    requires |of| == |xs|
  {
    if xs == [] then []
    else
      var n := |xs| - 1;
      Picked(xs[..n], of[..n], g) + if of[n] == g then [xs[n]] else []
  }

  function NonNull(vs: seq<Value>): seq<Value> {
    if vs == [] then []
    else
      var n := |vs| - 1;
      NonNull(vs[..n]) + if vs[n] == LNull then [] else [vs[n]]
  }

  function LeftSum(ev: Evaluator, vs: seq<Value>): Value
    requires vs != []
  {
    if |vs| == 1 then vs[0] else ev.add(LeftSum(ev, vs[..|vs| - 1]), vs[|vs| - 1])
  }

  /** What an aggregate function makes of the values of one group. */
  ghost predicate Results(ev: Evaluator, name: string, vs: seq<Value>, cell: Value) {
    match name
    case "MIN" => Ordered(ev, vs) ==>
      if NonNull(vs) == [] then cell == LNull
      else FirstLeast(ev, vs, cell) && cell != LNull && forall v :: v in vs && v != LNull ==> ev.compare(cell, v) <= 0
    case "MAX" => Ordered(ev, vs) ==>
      if NonNull(vs) == [] then cell == LNull
      else FirstGreatest(ev, vs, cell) && cell != LNull && forall v :: v in vs && v != LNull ==> ev.compare(cell, v) >= 0
    case "SUM" => cell == if NonNull(vs) == [] then LNull else LeftSum(ev, NonNull(vs))
    case "AVG" => cell == if NonNull(vs) == [] then LNull else ev.mean(LeftSum(ev, NonNull(vs)), |vs|)
    case _ => cell == LInt(|vs|)
  }

  function Values(ev: Evaluator, e: Expr, schema: Schema, rows: seq<Row>): (vs: seq<Value>)
    ensures |vs| == |rows|
  {
    seq(|rows|, i requires 0 <= i < |rows| => ev.value(e, rows[i], schema))
  }

  // ---------------------------------------------------------------------------------------------
  // The accumulator

  lemma LeftSumMore(ev: Evaluator, vs: seq<Value>, v: Value)
    ensures LeftSum(ev, vs + [v]) == if vs == [] then v else ev.add(LeftSum(ev, vs), v)
  {
    assert (vs + [v])[..|vs|] == vs;
  }

  lemma {:induction false} SumOfFold(ev: Evaluator, call: Expr, schema: Schema, members: seq<Row>)
    requires KindOf(call) == Sum || KindOf(call) == Avg
    ensures var a, vs := Fold(ev, call, schema, members), NonNull(Arguments(ev, call, schema, members));
            (a.hasValue <==> vs != []) && (a.hasValue ==> a.sum == LeftSum(ev, vs))
  {
    if members != [] {
      var n := |members| - 1;
      var vs := Arguments(ev, call, schema, members);
      SumOfFold(ev, call, schema, members[..n]);
      assert vs[..n] == Arguments(ev, call, schema, members[..n]);
      var before := NonNull(vs[..n]);
      if vs[n] != LNull {
        LeftSumMore(ev, before, vs[n]);
        assert NonNull(vs) == before + [vs[n]];
      } else {
        assert NonNull(vs) == before;
      }
    }
  }

  lemma {:induction false} NonNullIn(vs: seq<Value>, v: Value)
    ensures v in NonNull(vs) <==> v in vs && v != LNull
  {
    if vs != [] {
      NonNullIn(vs[..|vs| - 1], v);
      assert vs == vs[..|vs| - 1] + [vs[|vs| - 1]];
    }
  }

  lemma SomeNonNull(vs: seq<Value>)
    ensures NonNull(vs) != [] <==> exists v :: v in vs && v != LNull
  {
    if NonNull(vs) != [] {
      NonNullIn(vs, NonNull(vs)[0]);
    }
    if v :| v in vs && v != LNull {
      NonNullIn(vs, v);
    }
  }

  lemma YieldResults(ev: Evaluator, call: Expr, schema: Schema, members: seq<Row>)
    requires call.Call?
    ensures Results(ev, call.name, Arguments(ev, call, schema, members), Yield(ev, Fold(ev, call, schema, members), KindOf(call)))
  {
    var vs := Arguments(ev, call, schema, members);
    SomeNonNull(vs);
    match KindOf(call)
    case Count =>
    case Sum | Avg => SumOfFold(ev, call, schema, members);
    case Min | Max =>
      if Ordered(ev, vs) {
        Extremes(ev, call, schema, members);
      }
  }

  // ---------------------------------------------------------------------------------------------
  // The group of each row

  /** Row `i` belongs to the group whose first row is `first`. */
  predicate Belongs(ev: Evaluator, keys: seq<Row>, first: nat, i: nat)
    requires i < |keys|
  {
    first == i || (first < i && SameKey(ev, keys[first], keys[i]))
  }

  /** `of` gives every row the number of its group. */
  ghost predicate Assigns(ev: Evaluator, keys: seq<Row>, firsts: seq<nat>, of: seq<nat>) {
    && |of| == |keys| && (forall g {:trigger firsts[g]} :: 0 <= g < |firsts| ==> firsts[g] < |keys|)
    && (forall i {:trigger of[i]} :: 0 <= i < |of| ==> of[i] < |firsts|)
    && (forall i, g {:trigger of[i], firsts[g]} :: 0 <= i < |of| && 0 <= g < |firsts| ==>
          (of[i] == g <==> Belongs(ev, keys, firsts[g], i)))
  }

  lemma {:induction false} GroupNumbers(ev: Evaluator, keys: seq<Row>) returns (of: seq<nat>)
    requires FloatEquality(ev)
    ensures Assigns(ev, keys, Firsts(ev, keys), of)
  {
    if keys == [] {
      of := [];
    } else {
      var n := |keys| - 1;
      var before := GroupNumbers(ev, keys[..n]);
      var g := GroupNumber(ev, keys);
      of := before + [g];
      OneMoreNumber(ev, keys, before, g);
    }
  }

  /** The one group of the last row. */
  lemma GroupNumber(ev: Evaluator, keys: seq<Row>) returns (g: nat)
    requires FloatEquality(ev) && keys != []
    ensures var firsts, n := Firsts(ev, keys), |keys| - 1;
            g < |firsts| && forall h {:trigger firsts[h]} :: 0 <= h < |firsts| ==> (h == g <==> Belongs(ev, keys, firsts[h], n))
  {
    var n := |keys| - 1;
    var firsts, before := Firsts(ev, keys), Firsts(ev, keys[..n]);
    g := Covered(ev, keys, n);
    forall h | 0 <= h < |firsts| && h != g ensures !Belongs(ev, keys, firsts[h], n) {
      Ascending(ev, keys);
      if firsts[g] == n {
        assert IsFirst(ev, keys, n);
      } else if firsts[h] != n {
        if g < h {
          OneGroupOnly(ev, keys, before, g, h);
        } else {
          if SameKey(ev, keys[firsts[h]], keys[n]) {
            OneGroupOnly(ev, keys, before, h, g);
          }
        }
      }
    }
  }

  lemma EarlierNumber(ev: Evaluator, keys: seq<Row>, before: seq<nat>, i: nat, h: nat)
    requires keys != [] && i < |keys| - 1 && h < |Firsts(ev, keys)|
    requires var n := |keys| - 1; Assigns(ev, keys[..n], Firsts(ev, keys[..n]), before)
    ensures before[i] == h <==> Belongs(ev, keys, Firsts(ev, keys)[h], i)
  {
    var n := |keys| - 1;
    var firsts, earlier := Firsts(ev, keys), Firsts(ev, keys[..n]);
    if h < |earlier| {
      assert firsts[h] == earlier[h];
      assert Belongs(ev, keys[..n], earlier[h], i) <==> Belongs(ev, keys, firsts[h], i);
    }
  }

  lemma OneMoreNumber(ev: Evaluator, keys: seq<Row>, before: seq<nat>, g: nat)
    requires keys != []
    requires var n := |keys| - 1; Assigns(ev, keys[..n], Firsts(ev, keys[..n]), before)
    requires var firsts, n := Firsts(ev, keys), |keys| - 1;
             g < |firsts| && forall h {:trigger firsts[h]} :: 0 <= h < |firsts| ==> (h == g <==> Belongs(ev, keys, firsts[h], n))
    ensures Assigns(ev, keys, Firsts(ev, keys), before + [g])
  {
    var n, of := |keys| - 1, before + [g];
    var firsts := Firsts(ev, keys);
    forall i: nat, h: nat {:trigger of[i], firsts[h]} | i < |of| && h < |firsts|
      ensures of[i] == h <==> Belongs(ev, keys, firsts[h], i)
    {
      if i < n {
        EarlierNumber(ev, keys, before, i, h);
      }
    }
  }

  /** The members of a group are the rows with its number. */
  lemma {:induction false} MembersPicked(ev: Evaluator, keys: seq<Row>, rows: seq<Row>, of: seq<nat>, first: nat, g: nat)
    requires |keys| == |rows| == |of|
    requires forall i {:trigger of[i]} :: 0 <= i < |of| ==> (of[i] == g <==> Belongs(ev, keys, first, i))
    ensures Members(ev, keys, rows, first) == Picked(rows, of, g)
  {
    if rows != [] {
      var n := |rows| - 1;
      forall i {:trigger of[..n][i]} | 0 <= i < n
        ensures of[..n][i] == g <==> Belongs(ev, keys[..n], first, i)
      {
        assert of[..n][i] == of[i];
      }
      MembersPicked(ev, keys[..n], rows[..n], of[..n], first, g);
      assert of[n] == g <==> Belongs(ev, keys, first, n);
      if n < first {
        NothingPicked(ev, keys[..n], rows[..n], first);
      }
    }
  }

  lemma {:induction false} NothingPicked(ev: Evaluator, keys: seq<Row>, rows: seq<Row>, first: nat)
    requires |keys| == |rows| <= first
    ensures Members(ev, keys, rows, first) == []
  {
  }

  /** The arguments of a group are the picked ones of all arguments. */
  lemma {:induction false} ArgumentsPicked(ev: Evaluator, call: Expr, schema: Schema, rows: seq<Row>, of: seq<nat>, g: nat)
    requires |of| == |rows|
    ensures Arguments(ev, call, schema, Picked(rows, of, g)) == Picked(Arguments(ev, call, schema, rows), of, g)
  {
    if rows != [] {
      var n := |rows| - 1;
      ArgumentsPicked(ev, call, schema, rows[..n], of[..n], g);
      var all := Arguments(ev, call, schema, rows);
      assert all[..n] == Arguments(ev, call, schema, rows[..n]);
      var front := Picked(rows[..n], of[..n], g);
      assert Arguments(ev, call, schema, front + [rows[n]]) == Arguments(ev, call, schema, front) + [all[n]];
    }
  }

  /** Two rows agree in the GROUP BY expressions; floats by the equality of floats. */
  predicate SameGroup(ev: Evaluator, groupBy: seq<Expr>, schema: Schema, a: Row, b: Row) {
    forall c {:trigger groupBy[c]} :: 0 <= c < |groupBy| ==>
      var v, w := ev.value(groupBy[c], a, schema), ev.value(groupBy[c], b, schema);
      if v.LFloat? && w.LFloat? then ev.sameFloat(v.bits, w.bits) else v == w
  }

  lemma KeysSame(ev: Evaluator, groupBy: seq<Expr>, schema: Schema, a: Row, b: Row)
    ensures SameKey(ev, KeyOf(ev, groupBy, schema, a), KeyOf(ev, groupBy, schema, b)) <==> SameGroup(ev, groupBy, schema, a, b)
  {
    var ka, kb := KeyOf(ev, groupBy, schema, a), KeyOf(ev, groupBy, schema, b);
    if groupBy != [] {
      if SameKey(ev, ka, kb) {
        forall c {:trigger groupBy[c]} | 0 <= c < |groupBy| ensures SameValue(ev, ka[c], kb[c]) { }
      }
    }
  }

  /** Rows share a group exactly if they agree in the GROUP BY expressions; the groups are numbered in the order in which
      their first rows come, and each number has a row. */
  ghost predicate Partition(ev: Evaluator, groupBy: seq<Expr>, schema: Schema, rows: seq<Row>, of: seq<nat>, count: nat) {
    && |of| == |rows|
    && (forall i, j {:trigger of[i], of[j]} :: 0 <= i < j < |rows| ==>
          (of[i] == of[j] <==> SameGroup(ev, groupBy, schema, rows[i], rows[j])))
    && (forall i {:trigger of[i]} :: 0 <= i < |rows| ==> of[i] < count)
    && (forall g: nat :: g < count ==> HasRow(of, g))
    && (forall i, j, g, h {:trigger FirstRow(of, i, g), FirstRow(of, j, h)} :: FirstRow(of, i, g) && FirstRow(of, j, h) && g < h ==> i < j)
  }

  ghost predicate HasRow(of: seq<nat>, g: nat) {
    exists i :: FirstRow(of, i, g)
  }

  ghost predicate FirstRow(of: seq<nat>, i: int, g: nat) {
    0 <= i < |of| && of[i] == g && forall j {:trigger of[j]} :: 0 <= j < i ==> of[j] != g
  }

  lemma FirstRowIs(ev: Evaluator, keys: seq<Row>, firsts: seq<nat>, of: seq<nat>, i: int, g: nat)
    requires Assigns(ev, keys, firsts, of) && g < |firsts|
    ensures FirstRow(of, i, g) <==> i == firsts[g]
  {
    var f := firsts[g];
    assert Belongs(ev, keys, f, f) && of[f] == g;
    if 0 <= i < |of| && of[i] == g {
      assert Belongs(ev, keys, f, i);
    }
    forall j {:trigger of[j]} | 0 <= j < f ensures of[j] != g {
      assert !Belongs(ev, keys, f, j);
    }
  }

  lemma SharesGroup(ev: Evaluator, keys: seq<Row>, of: seq<nat>, i: nat, j: nat)
    requires FloatEquality(ev) && Assigns(ev, keys, Firsts(ev, keys), of) && i < j < |keys|
    ensures of[i] == of[j] <==> SameKey(ev, keys[i], keys[j])
  {
    var firsts := Firsts(ev, keys);
    var f := firsts[of[i]];
    assert Belongs(ev, keys, f, i);
    assert of[j] == of[i] <==> Belongs(ev, keys, f, j);
    SameKeys(ev, keys[i], keys[j], keys[f]);
    SameKeys(ev, keys[f], keys[i], keys[j]);
    SameKeys(ev, keys[i], keys[f], keys[j]);
  }

  lemma NumbersPartition(ev: Evaluator, groupBy: seq<Expr>, schema: Schema, rows: seq<Row>, of: seq<nat>)
    requires FloatEquality(ev)
    requires var keys := Keys(ev, groupBy, schema, rows); Assigns(ev, keys, Firsts(ev, keys), of)
    ensures true <==> Partition(ev, groupBy, schema, rows, of, |Firsts(ev, Keys(ev, groupBy, schema, rows))|)
  {
    var keys := Keys(ev, groupBy, schema, rows);
    var firsts := Firsts(ev, keys);
    forall i: nat, j: nat {:trigger of[i], of[j]} | i < j < |rows|
      ensures of[i] == of[j] <==> SameGroup(ev, groupBy, schema, rows[i], rows[j])
    {
      SharesGroup(ev, keys, of, i, j);
      KeysSame(ev, groupBy, schema, rows[i], rows[j]);
    }
    forall g: nat | g < |firsts| ensures HasRow(of, g) {
      FirstRowIs(ev, keys, firsts, of, firsts[g], g);
    }
    Ascending(ev, keys);
    forall i, j, g, h {:trigger FirstRow(of, i, g), FirstRow(of, j, h)} | FirstRow(of, i, g) && FirstRow(of, j, h) && g < h
      ensures i < j
    {
      FirstRowIs(ev, keys, firsts, of, i, g);
      FirstRowIs(ev, keys, firsts, of, j, h);
    }
  }

  /** The values a call is given: those of its first argument, if it has one. */
  function Given(ev: Evaluator, call: Expr, schema: Schema, rows: seq<Row>): (vs: seq<Value>)
    requires call.Call?
    ensures |vs| == |rows|
  {
    if call.args == [] then seq(|rows|, _ => LNull) else Values(ev, call.args[0], schema, rows)
  }

  lemma {:induction false} PickedSize<T, U>(xs: seq<T>, ys: seq<U>, of: seq<nat>, g: nat)
    requires |xs| == |ys| == |of|
    ensures |Picked(xs, of, g)| == |Picked(ys, of, g)|
  {
    if xs != [] {
      var n := |xs| - 1;
      PickedSize(xs[..n], ys[..n], of[..n], g);
    }
  }

  lemma CellOfGroup(ev: Evaluator, call: Expr, schema: Schema, rows: seq<Row>, of: seq<nat>, g: nat)
    requires call.Call? && |of| == |rows|
    ensures true <==> Results(ev, call.name, Picked(Given(ev, call, schema, rows), of, g),
                              Yield(ev, Fold(ev, call, schema, Picked(rows, of, g)), KindOf(call)))
  {
    YieldResults(ev, call, schema, Picked(rows, of, g));
    ArgumentsPicked(ev, call, schema, rows, of, g);
    PickedSize(Arguments(ev, call, schema, rows), Given(ev, call, schema, rows), of, g);
    if KindOf(call) != Count {
      assert Arguments(ev, call, schema, rows) == Given(ev, call, schema, rows);
    }
  }

  lemma GroupKeyCells(ev: Evaluator, groupBy: seq<Expr>, calls: seq<Expr>, schema: Schema, rows: seq<Row>, g: nat)
    requires FloatEquality(ev) && g < |Firsts(ev, Keys(ev, groupBy, schema, rows))|
    ensures var out, firsts := AggregateRows(ev, groupBy, calls, schema, rows), Firsts(ev, Keys(ev, groupBy, schema, rows));
            && g < |out| && |out[g]| == |groupBy| + |calls|
            && forall c {:trigger groupBy[c]} :: 0 <= c < |groupBy| ==> out[g][c] == ev.value(groupBy[c], rows[firsts[g]], schema)
  {
    AggregateExact(ev, groupBy, calls, schema, rows, g, 0);
    var out := AggregateRows(ev, groupBy, calls, schema, rows);
    forall c {:trigger groupBy[c]} | 0 <= c < |groupBy|
      ensures out[g][c] == ev.value(groupBy[c], rows[Firsts(ev, Keys(ev, groupBy, schema, rows))[g]], schema)
    {
      assert out[g][c] == out[g][..|groupBy|][c];
    }
  }

  lemma GroupCell(ev: Evaluator, groupBy: seq<Expr>, calls: seq<Expr>, schema: Schema, rows: seq<Row>, of: seq<nat>,
                  g: nat, a: nat)
    requires FloatEquality(ev) && a < |calls| && calls[a].Call?
    requires var keys := Keys(ev, groupBy, schema, rows); Assigns(ev, keys, Firsts(ev, keys), of) && g < |Firsts(ev, keys)|
    ensures var out := AggregateRows(ev, groupBy, calls, schema, rows);
            g < |out| && (true <==> HoldsResult(ev, calls[a], schema, rows, of, g, out[g], |groupBy| + a))
  {
    var keys := Keys(ev, groupBy, schema, rows);
    AggregateExact(ev, groupBy, calls, schema, rows, g, a);
    MembersPicked(ev, keys, rows, of, Firsts(ev, keys)[g], g);
    CellOfGroup(ev, calls[a], schema, rows, of, g);
  }

  /** The GROUP BY columns of every row handed out. */
  ghost predicate KeyColumns(ev: Evaluator, groupBy: seq<Expr>, schema: Schema, rows: seq<Row>, of: seq<nat>, width: nat,
                             out: seq<Row>) {
    forall i: nat, g: nat {:trigger FirstRow(of, i, g)} :: |of| == |rows| && g < |out| && FirstRow(of, i, g) ==>
      |out[g]| == width >= |groupBy|
      && forall c {:trigger groupBy[c]} :: 0 <= c < |groupBy| ==> out[g][c] == ev.value(groupBy[c], rows[i], schema)
  }

  /** The results in every row handed out. */
  ghost predicate ResultColumns(ev: Evaluator, calls: seq<Expr>, schema: Schema, rows: seq<Row>, of: seq<nat>, first: nat,
                                out: seq<Row>)
    requires |of| == |rows|
  {
    forall g: nat, a: nat {:trigger out[g], calls[a]} :: g < |out| && a < |calls| && calls[a].Call? ==>
      HoldsResult(ev, calls[a], schema, rows, of, g, out[g], first + a)
  }

  /** Column `at` of the row is the result of the call on the values of group `g`. */
  ghost predicate HoldsResult(ev: Evaluator, call: Expr, schema: Schema, rows: seq<Row>, of: seq<nat>, g: nat, row: Row, at: nat)
    requires |of| == |rows| && call.Call?
  {
    at < |row| && Results(ev, call.name, Picked(Given(ev, call, schema, rows), of, g), row[at])
  }

  lemma KeyColumnsHold(ev: Evaluator, groupBy: seq<Expr>, calls: seq<Expr>, schema: Schema, rows: seq<Row>, of: seq<nat>)
    requires FloatEquality(ev)
    requires var keys := Keys(ev, groupBy, schema, rows); Assigns(ev, keys, Firsts(ev, keys), of)
    ensures true <==> KeyColumns(ev, groupBy, schema, rows, of, |groupBy| + |calls|, AggregateRows(ev, groupBy, calls, schema, rows))
  {
    var keys := Keys(ev, groupBy, schema, rows);
    var out := AggregateRows(ev, groupBy, calls, schema, rows);
    AggregateExact(ev, groupBy, calls, schema, rows, 0, 0);
    forall i: nat, g: nat {:trigger FirstRow(of, i, g)} | g < |out| && FirstRow(of, i, g)
      ensures |out[g]| == |groupBy| + |calls|
      ensures forall c {:trigger groupBy[c]} :: 0 <= c < |groupBy| ==> out[g][c] == ev.value(groupBy[c], rows[i], schema)
    {
      FirstRowIs(ev, keys, Firsts(ev, keys), of, i, g);
      GroupKeyCells(ev, groupBy, calls, schema, rows, g);
    }
  }

  lemma ResultColumnsHold(ev: Evaluator, groupBy: seq<Expr>, calls: seq<Expr>, schema: Schema, rows: seq<Row>, of: seq<nat>)
    requires FloatEquality(ev)
    requires var keys := Keys(ev, groupBy, schema, rows); Assigns(ev, keys, Firsts(ev, keys), of)
    ensures true <==> ResultColumns(ev, calls, schema, rows, of, |groupBy|, AggregateRows(ev, groupBy, calls, schema, rows))
  {
    var out := AggregateRows(ev, groupBy, calls, schema, rows);
    AggregateExact(ev, groupBy, calls, schema, rows, 0, 0);
    forall g: nat, a: nat {:trigger out[g], calls[a]} | g < |out| && a < |calls| && calls[a].Call?
      ensures true <==> HoldsResult(ev, calls[a], schema, rows, of, g, out[g], |groupBy| + a)
    {
      GroupCell(ev, groupBy, calls, schema, rows, of, g, a);
    }
  }

  /** GROUP BY: one row for each group of rows that agree in the GROUP BY expressions, first seen first.  It holds the
      values of these expressions, then the results of the calls on the values of the group's rows. */
  lemma GroupedResults(ev: Evaluator, groupBy: seq<Expr>, calls: seq<Expr>, schema: Schema, rows: seq<Row>)
    returns (of: seq<nat>)
    requires FloatEquality(ev)
    ensures var out := AggregateRows(ev, groupBy, calls, schema, rows);
            && (true <==> Partition(ev, groupBy, schema, rows, of, |out|)) && |of| == |rows|
            && (true <==> KeyColumns(ev, groupBy, schema, rows, of, |groupBy| + |calls|, out))
            && (true <==> ResultColumns(ev, calls, schema, rows, of, |groupBy|, out))
  {
    of := GroupNumbers(ev, Keys(ev, groupBy, schema, rows));
    NumbersPartition(ev, groupBy, schema, rows, of);
    AggregateExact(ev, groupBy, calls, schema, rows, 0, 0);
    KeyColumnsHold(ev, groupBy, calls, schema, rows, of);
    ResultColumnsHold(ev, groupBy, calls, schema, rows, of);
  }
}
