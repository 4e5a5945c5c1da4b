/** Grouping and the aggregate functions (src/executor/hash_agg_executor.c) as functions of the input rows. */
module Aggregation {
  import opened ExpressionGrammar
  import opened QueryPlan

  /** expr_evaluate: whether it gives the boolean true, and its value, which is NULL if it fails; equality of floats;
      value_compare; value_add; and the division of a sum by a count. */
  datatype Evaluator = Evaluator(holds: (Expr, Row, Schema) -> bool, value: (Expr, Row, Schema) -> Value,
                                 sameFloat: (int, int) -> bool, compare: (Value, Value) -> int,
                                 add: (Value, Value) -> Value, mean: (Value, nat) -> Value)

  datatype Kind = Count | Sum | Avg | Min | Max

  /** get_agg_kind: names are compared as they are written, and any other name counts rows. */
  function KindOf(e: Expr): Kind {
    match e
    case Call("SUM", _, _) => Sum
    case Call("AVG", _, _) => Avg
    case Call("MIN", _, _) => Min
    case Call("MAX", _, _) => Max
    case _ => Count
  }

  /** agg_state_t. */
  datatype Acc = Acc(count: nat, sum: Value, min: Value, max: Value, hasValue: bool)

  const NO_ACC := Acc(0, LNull, LNull, LNull, false)

  /** update_agg: every row is counted, also one whose value is NULL. */
  function Update(ev: Evaluator, a: Acc, v: Value, kind: Kind): Acc {
    if v == LNull then a.(count := a.count + 1)
    else if !a.hasValue then Acc(a.count + 1, v, v, v, true)
    else
      Acc(a.count + 1, if kind == Sum || kind == Avg then ev.add(a.sum, v) else a.sum,
          if kind != Count && ev.compare(v, a.min) < 0 then v else a.min,
          if kind != Count && ev.compare(v, a.max) > 0 then v else a.max, true)
  }

  /** The value a call takes from a row. */
  function Argument(ev: Evaluator, e: Expr, schema: Schema, row: Row): Value {
    if KindOf(e) == Count && e.Call? && e.isStar then LInt(1)
    else if e.Call? && e.args != [] then ev.value(e.args[0], row, schema)
    else LNull
  }

  /** What a call yields for a group. */
  function Yield(ev: Evaluator, a: Acc, kind: Kind): Value {
    match kind
    case Count => LInt(a.count)
    case Sum => if a.hasValue then a.sum else LNull
    case Avg => if a.hasValue && a.count > 0 then ev.mean(a.sum, a.count) else LNull
    case Min => if a.hasValue then a.min else LNull
    case Max => if a.hasValue then a.max else LNull
  }

  predicate SameValue(ev: Evaluator, a: Value, b: Value) {
    if a.LFloat? && b.LFloat? then ev.sameFloat(a.bits, b.bits) else a == b
  }

  /** group_key_equal. */
  predicate SameKey(ev: Evaluator, a: Row, b: Row) {
    |a| == |b| && forall i :: 0 <= i < |a| ==> SameValue(ev, a[i], b[i])
  }

  /** Without GROUP BY the key is a single NULL. */
  function KeyOf(ev: Evaluator, groupBy: seq<Expr>, schema: Schema, row: Row): Row {
    if groupBy == [] then [LNull]
    else seq(|groupBy|, i requires 0 <= i < |groupBy| => ev.value(groupBy[i], row, schema))
  }

  datatype Group = Group(key: Row, accs: seq<Acc>)

  /** The first group of the key, or the number of groups. */
  function Find(ev: Evaluator, groups: seq<Group>, key: Row): (g: nat)
    ensures g <= |groups| && (g < |groups| ==> SameKey(ev, groups[g].key, key))
    ensures forall h :: 0 <= h < g ==> !SameKey(ev, groups[h].key, key)
  {
    if groups == [] then 0
    else if SameKey(ev, groups[0].key, key) then 0
    else 1 + Find(ev, groups[1..], key)
  }

  function Updated(ev: Evaluator, calls: seq<Expr>, schema: Schema, accs: seq<Acc>, row: Row): seq<Acc>
    requires |accs| == |calls|
  {
    seq(|calls|, a requires 0 <= a < |calls| => Update(ev, accs[a], Argument(ev, calls[a], schema, row), KindOf(calls[a])))
  }

  function Created(calls: seq<Expr>, groups: seq<Group>, g: nat, key: Row): seq<Group> {
    if g < |groups| then groups else groups + [Group(key, seq(|calls|, _ => NO_ACC))]
  }

  /** The group with one more row. */
  function Entered(ev: Evaluator, calls: seq<Expr>, schema: Schema, group: Group, row: Row): Group
    requires |group.accs| == |calls|
  {
    group.(accs := Updated(ev, calls, schema, group.accs, row))
  }

  predicate Sized(calls: seq<Expr>, groups: seq<Group>) {
    forall g {:trigger groups[g]} :: 0 <= g < |groups| ==> |groups[g].accs| == |calls|
  }

  /** One row goes to the first group of its key, which is made if there is none. */
  function AddRow(ev: Evaluator, groupBy: seq<Expr>, calls: seq<Expr>, schema: Schema, groups: seq<Group>, row: Row): (r: seq<Group>)
    requires Sized(calls, groups)
    ensures Sized(calls, r)
  {
    var key := KeyOf(ev, groupBy, schema, row);
    var g := Find(ev, groups, key);
    var all := Created(calls, groups, g, key);
    all[g := Entered(ev, calls, schema, all[g], row)]
  }

  function Groups(ev: Evaluator, groupBy: seq<Expr>, calls: seq<Expr>, schema: Schema, rows: seq<Row>): (r: seq<Group>)
    ensures Sized(calls, r)
  {
    if rows == [] then []
    else AddRow(ev, groupBy, calls, schema, Groups(ev, groupBy, calls, schema, rows[..|rows| - 1]), rows[|rows| - 1])
  }

  /** The row handed out for a group: its key, which has no column without GROUP BY, and the results. */
  function GroupRow(ev: Evaluator, groupBy: seq<Expr>, calls: seq<Expr>, group: Group): Row
    requires |group.accs| == |calls|
  {
    (if groupBy == [] then [] else group.key)
    + seq(|calls|, a requires 0 <= a < |calls| => Yield(ev, group.accs[a], KindOf(calls[a])))
  }

  function GroupRows(ev: Evaluator, groupBy: seq<Expr>, calls: seq<Expr>, groups: seq<Group>): seq<Row>
    requires Sized(calls, groups)
  {
    seq(|groups|, g requires 0 <= g < |groups| => GroupRow(ev, groupBy, calls, groups[g]))
  }

  /** What an aggregate executor yields. */
  function AggregateRows(ev: Evaluator, groupBy: seq<Expr>, calls: seq<Expr>, schema: Schema, rows: seq<Row>): seq<Row> {
    GroupRows(ev, groupBy, calls, Groups(ev, groupBy, calls, schema, rows))
  }

  lemma GroupsOfMore(ev: Evaluator, groupBy: seq<Expr>, calls: seq<Expr>, schema: Schema, rows: seq<Row>, row: Row)
    ensures Groups(ev, groupBy, calls, schema, rows + [row]) ==
            AddRow(ev, groupBy, calls, schema, Groups(ev, groupBy, calls, schema, rows), row)
  {
    assert (rows + [row])[..|rows|] == rows;
  }

  // ---------------------------------------------------------------------------------------------
  // What the rows of the groups are

  /** Equality of floats is symmetric and transitive; a value that is no number equals nothing, not even itself. */
  ghost predicate FloatEquality(ev: Evaluator) {
    && (forall x, y :: ev.sameFloat(x, y) ==> ev.sameFloat(y, x))
    && (forall x, y, z :: ev.sameFloat(x, y) && ev.sameFloat(y, z) ==> ev.sameFloat(x, z))
  }

  lemma SameKeys(ev: Evaluator, a: Row, b: Row, c: Row)
    requires FloatEquality(ev)
    ensures SameKey(ev, a, b) ==> SameKey(ev, b, a)
    ensures SameKey(ev, a, b) && SameKey(ev, b, c) ==> SameKey(ev, a, c)
  {
    if SameKey(ev, a, b) && SameKey(ev, b, c) {
      forall i | 0 <= i < |a| ensures SameValue(ev, a[i], c[i]) {
        assert SameValue(ev, a[i], b[i]) && SameValue(ev, b[i], c[i]);
      }
    }
  }

  /** The keys of the rows. */
  function Keys(ev: Evaluator, groupBy: seq<Expr>, schema: Schema, rows: seq<Row>): (keys: seq<Row>)
    ensures |keys| == |rows|
  {
    seq(|rows|, i requires 0 <= i < |rows| => KeyOf(ev, groupBy, schema, rows[i]))
  }

  /** No earlier key is the same. */
  predicate IsFirst(ev: Evaluator, keys: seq<Row>, i: nat)
    requires i < |keys|
  {
    forall j {:trigger keys[j]} :: 0 <= j < i ==> !SameKey(ev, keys[j], keys[i])
  }

  /** The positions at which a key is seen for the first time, in ascending order. */
  function Firsts(ev: Evaluator, keys: seq<Row>): (firsts: seq<nat>)
    ensures forall g {:trigger firsts[g]} :: 0 <= g < |firsts| ==> firsts[g] < |keys| && IsFirst(ev, keys, firsts[g])
  {
    if keys == [] then []
    else
      var n := |keys| - 1;
      Firsts(ev, keys[..n]) + if IsFirst(ev, keys, n) then [n] else []
  }

  /** The row at `i` and the later ones of the same key, in order. */
  function Members(ev: Evaluator, keys: seq<Row>, rows: seq<Row>, i: nat): (members: seq<Row>)
    requires |keys| == |rows|
  {
    if |rows| <= i then []
    else
      var n := |rows| - 1;
      Members(ev, keys[..n], rows[..n], i) + if n == i || SameKey(ev, keys[i], keys[n]) then [rows[n]] else []
  }

  /** A call over the rows of one group. */
  function Fold(ev: Evaluator, call: Expr, schema: Schema, members: seq<Row>): (a: Acc)
    ensures a.count == |members|
  {
    if members == [] then NO_ACC
    else
      var n := |members| - 1;
      Update(ev, Fold(ev, call, schema, members[..n]), Argument(ev, call, schema, members[n]), KindOf(call))
  }

  function GroupOf(ev: Evaluator, calls: seq<Expr>, schema: Schema, keys: seq<Row>, rows: seq<Row>, i: nat): Group
    requires |keys| == |rows| && i < |rows|
  {
    Group(keys[i], seq(|calls|, a requires 0 <= a < |calls| => Fold(ev, calls[a], schema, Members(ev, keys, rows, i))))
  }

  ghost predicate IsAscending(s: seq<nat>) {
    forall g, h {:trigger s[g], s[h]} :: 0 <= g < h < |s| ==> s[g] < s[h]
  }

  lemma {:induction false} Ascending(ev: Evaluator, keys: seq<Row>)
    ensures IsAscending(Firsts(ev, keys))
  {
    if keys != [] {
      var n := |keys| - 1;
      Ascending(ev, keys[..n]);
      var before := Firsts(ev, keys[..n]);
      assert forall g {:trigger before[g]} :: 0 <= g < |before| ==> before[g] < n;
      assert IsAscending(before + [n]);
    }
  }

  /** Every position has the key of a first one. */
  lemma {:induction false} Covered(ev: Evaluator, keys: seq<Row>, i: nat) returns (g: nat)
    requires FloatEquality(ev) && i < |keys|
    ensures var firsts := Firsts(ev, keys);
            g < |firsts| && (firsts[g] == i || SameKey(ev, keys[firsts[g]], keys[i]))
  {
    var n := |keys| - 1;
    if i < n {
      g := Covered(ev, keys[..n], i);
    } else if IsFirst(ev, keys, n) {
      g := |Firsts(ev, keys[..n])|;
    } else {
      var j: nat :| j < n && SameKey(ev, keys[j], keys[n]);
      g := Covered(ev, keys[..n], j);
      SameKeys(ev, keys[Firsts(ev, keys[..n])[g]], keys[j], keys[n]);
    }
  }

  function GroupsAt(ev: Evaluator, calls: seq<Expr>, schema: Schema, keys: seq<Row>, rows: seq<Row>, at: seq<nat>): seq<Group>
    requires |keys| == |rows| && forall g {:trigger at[g]} :: 0 <= g < |at| ==> at[g] < |rows|
  {
    seq(|at|, g requires 0 <= g < |at| => GroupOf(ev, calls, schema, keys, rows, at[g]))
  }

  /** One more row behind an earlier one. */
  lemma GroupGrows(ev: Evaluator, calls: seq<Expr>, schema: Schema, keys: seq<Row>, rows: seq<Row>, i: nat)
    requires |keys| == |rows| && i < |rows| - 1
    ensures var n := |rows| - 1;
            var before := GroupOf(ev, calls, schema, keys[..n], rows[..n], i);
            GroupOf(ev, calls, schema, keys, rows, i) ==
            if SameKey(ev, keys[i], keys[n]) then Entered(ev, calls, schema, before, rows[n]) else before
  {
    var n := |rows| - 1;
    var before := Members(ev, keys[..n], rows[..n], i);
    if SameKey(ev, keys[i], keys[n]) {
      var members := before + [rows[n]];
      assert members[..|members| - 1] == before;
      assert Members(ev, keys, rows, i) == members;
    } else {
      assert Members(ev, keys, rows, i) == before;
    }
  }

  lemma FoldOne(ev: Evaluator, call: Expr, schema: Schema, row: Row)
    ensures Fold(ev, call, schema, [row]) == Update(ev, NO_ACC, Argument(ev, call, schema, row), KindOf(call))
  {
    assert [row][..0] == [];
  }

  lemma NewGroup(ev: Evaluator, calls: seq<Expr>, schema: Schema, keys: seq<Row>, rows: seq<Row>)
    requires |keys| == |rows| > 0
    ensures var n := |rows| - 1;
            GroupOf(ev, calls, schema, keys, rows, n) ==
            Group(keys[n], Updated(ev, calls, schema, seq(|calls|, _ => NO_ACC), rows[n]))
  {
    var n := |rows| - 1;
    assert Members(ev, keys[..n], rows[..n], n) == [];
    var members := Members(ev, keys, rows, n);
    assert members == [rows[n]];
    forall a | 0 <= a < |calls| {
      FoldOne(ev, calls[a], schema, rows[n]);
    }
  }

  /** A row of a key seen before belongs to the group of the first row of its key, and to no other. */
  lemma OneGroupOnly(ev: Evaluator, keys: seq<Row>, firsts: seq<nat>, g: nat, h: nat)
    requires FloatEquality(ev) && keys != [] && firsts == Firsts(ev, keys[..|keys| - 1]) && g < |firsts| && h < |firsts| && g < h
    requires SameKey(ev, keys[firsts[g]], keys[|keys| - 1])
    ensures !SameKey(ev, keys[firsts[h]], keys[|keys| - 1])
  {
    var n := |keys| - 1;
    Ascending(ev, keys[..n]);
    SameKeys(ev, keys[firsts[h]], keys[n], keys[firsts[g]]);
    SameKeys(ev, keys[firsts[g]], keys[n], keys[firsts[h]]);
    assert IsFirst(ev, keys[..n], firsts[h]) && keys[..n][firsts[g]] == keys[firsts[g]];
  }

  lemma SeenBefore(ev: Evaluator, keys: seq<Row>, j: nat) returns (g: nat)
    requires FloatEquality(ev) && j < |keys| - 1 && SameKey(ev, keys[j], keys[|keys| - 1])
    ensures var firsts := Firsts(ev, keys[..|keys| - 1]);
            g < |firsts| && SameKey(ev, keys[firsts[g]], keys[|keys| - 1])
  {
    g := Covered(ev, keys[..|keys| - 1], j);
    SameKeys(ev, keys[Firsts(ev, keys[..|keys| - 1])[g]], keys[j], keys[|keys| - 1]);
  }

  /** What the search for the last key finds. */
  lemma FindAmongFirsts(ev: Evaluator, keys: seq<Row>, firsts: seq<nat>, groups: seq<Group>) returns (g: nat)
    requires FloatEquality(ev) && keys != [] && firsts == Firsts(ev, keys[..|keys| - 1]) && |groups| == |firsts|
    requires forall h {:trigger groups[h]} :: 0 <= h < |firsts| ==> groups[h].key == keys[firsts[h]]
    ensures g == Find(ev, groups, keys[|keys| - 1])
    ensures forall h {:trigger firsts[h]} :: 0 <= h < |firsts| ==> (SameKey(ev, keys[firsts[h]], keys[|keys| - 1]) <==> h == g)
    ensures IsFirst(ev, keys, |keys| - 1) <==> g == |groups|
  {
    var n := |keys| - 1;
    g := Find(ev, groups, keys[n]);
    forall h {:trigger firsts[h]} | 0 <= h < |firsts|
      ensures SameKey(ev, keys[firsts[h]], keys[n]) <==> h == g
    {
      var key := groups[h].key;
      if h > g {
        assert groups[g].key == keys[firsts[g]];
        OneGroupOnly(ev, keys, firsts, g, h);
      }
    }
    if g < |groups| {
      assert groups[g].key == keys[firsts[g]];
    } else if !IsFirst(ev, keys, n) {
      var j: nat :| j < n && SameKey(ev, keys[j], keys[n]);
      var h := SeenBefore(ev, keys, j);
    }
  }

  lemma AddRowTo(ev: Evaluator, groupBy: seq<Expr>, calls: seq<Expr>, schema: Schema, groups: seq<Group>, row: Row, g: nat)
    requires Sized(calls, groups) && g == Find(ev, groups, KeyOf(ev, groupBy, schema, row))
    ensures AddRow(ev, groupBy, calls, schema, groups, row) ==
            if g < |groups| then groups[g := Entered(ev, calls, schema, groups[g], row)]
            else groups + [Entered(ev, calls, schema, Group(KeyOf(ev, groupBy, schema, row), seq(|calls|, _ => NO_ACC)), row)]
  {
  }

  /** The groups of the earlier rows, in the list with one more row. */
  lemma EarlierGroups(ev: Evaluator, calls: seq<Expr>, schema: Schema, keys: seq<Row>, rows: seq<Row>, firsts: seq<nat>, g: nat)
    requires |keys| == |rows| > 0 && forall h {:trigger firsts[h]} :: 0 <= h < |firsts| ==> firsts[h] < |rows| - 1
    requires forall h {:trigger firsts[h]} :: 0 <= h < |firsts| ==>
               (SameKey(ev, keys[firsts[h]], keys[|rows| - 1]) <==> h == g)
    ensures var n := |rows| - 1;
            var groups := GroupsAt(ev, calls, schema, keys[..n], rows[..n], firsts);
            GroupsAt(ev, calls, schema, keys, rows, firsts) ==
            if g < |firsts| then groups[g := Entered(ev, calls, schema, groups[g], rows[n])] else groups
  {
    forall h | 0 <= h < |firsts| {
      GroupGrows(ev, calls, schema, keys, rows, firsts[h]);
    }
  }

  lemma LastGroup(ev: Evaluator, calls: seq<Expr>, schema: Schema, keys: seq<Row>, rows: seq<Row>, firsts: seq<nat>)
    requires |keys| == |rows| > 0 && forall h {:trigger firsts[h]} :: 0 <= h < |firsts| ==> firsts[h] < |rows| - 1
    ensures var n: nat := |rows| - 1;
            GroupsAt(ev, calls, schema, keys, rows, firsts + [n]) ==
            GroupsAt(ev, calls, schema, keys, rows, firsts)
            + [Entered(ev, calls, schema, Group(keys[n], seq(|calls|, _ => NO_ACC)), rows[n])]
  {
    NewGroup(ev, calls, schema, keys, rows);
  }

  /** What one more row makes of the groups. */
  lemma GroupsGrow(ev: Evaluator, calls: seq<Expr>, schema: Schema, keys: seq<Row>, rows: seq<Row>, groups: seq<Group>)
    returns (g: nat)
    requires FloatEquality(ev) && |keys| == |rows| > 0
    requires var n := |rows| - 1; groups == GroupsAt(ev, calls, schema, keys[..n], rows[..n], Firsts(ev, keys[..n]))
    ensures g == Find(ev, groups, keys[|rows| - 1])
    ensures var n := |rows| - 1;
            GroupsAt(ev, calls, schema, keys, rows, Firsts(ev, keys)) ==
            if g < |groups| then groups[g := Entered(ev, calls, schema, groups[g], rows[n])]
            else groups + [Entered(ev, calls, schema, Group(keys[n], seq(|calls|, _ => NO_ACC)), rows[n])]
  {
    var n := |rows| - 1;
    var firsts := Firsts(ev, keys[..n]);
    g := FindAmongFirsts(ev, keys, firsts, groups);
    EarlierGroups(ev, calls, schema, keys, rows, firsts, g);
    LastGroup(ev, calls, schema, keys, rows, firsts);
  }

  /** Grouping makes one group for each key, in the order in which the keys are first seen, and a group has folded
      the rows of its key in order.  A key that holds a value that is no number has a group of its own. */
  lemma {:induction false} GroupsExact(ev: Evaluator, groupBy: seq<Expr>, calls: seq<Expr>, schema: Schema, rows: seq<Row>)
    requires FloatEquality(ev)
    ensures var keys := Keys(ev, groupBy, schema, rows);
            Groups(ev, groupBy, calls, schema, rows) == GroupsAt(ev, calls, schema, keys, rows, Firsts(ev, keys))
  {
    if rows != [] {
      var n := |rows| - 1;
      GroupsExact(ev, groupBy, calls, schema, rows[..n]);
      assert Keys(ev, groupBy, schema, rows)[..n] == Keys(ev, groupBy, schema, rows[..n]);
      var groups := Groups(ev, groupBy, calls, schema, rows[..n]);
      var g := GroupsGrow(ev, calls, schema, Keys(ev, groupBy, schema, rows), rows, groups);
      AddRowTo(ev, groupBy, calls, schema, groups, rows[n], g);
    }
  }

  lemma GroupRowParts(ev: Evaluator, groupBy: seq<Expr>, calls: seq<Expr>, group: Group, a: nat)
    requires |group.accs| == |calls| && (groupBy != [] ==> |group.key| == |groupBy|)
    ensures var row := GroupRow(ev, groupBy, calls, group);
            && |row| == |groupBy| + |calls| && (groupBy != [] ==> row[..|groupBy|] == group.key)
            && (a < |calls| ==> row[|groupBy| + a] == Yield(ev, group.accs[a], KindOf(calls[a])))
  {
  }

  /** The rows handed out: one for each key, first seen first, with the results over the rows of the key. */
  lemma AggregateExact(ev: Evaluator, groupBy: seq<Expr>, calls: seq<Expr>, schema: Schema, rows: seq<Row>, g: nat, a: nat)
    requires FloatEquality(ev)
    ensures var keys := Keys(ev, groupBy, schema, rows);
            var out, firsts := AggregateRows(ev, groupBy, calls, schema, rows), Firsts(ev, keys);
            && |out| == |firsts|
            && (g < |firsts| ==>
                  var members := Members(ev, keys, rows, firsts[g]);
                  && |out[g]| == |groupBy| + |calls| && (groupBy != [] ==> out[g][..|groupBy|] == keys[firsts[g]])
                  && (a < |calls| ==>
                        && out[g][|groupBy| + a] == Yield(ev, Fold(ev, calls[a], schema, members), KindOf(calls[a]))
                        && (KindOf(calls[a]) == Count ==> out[g][|groupBy| + a] == LInt(|members|))))
  {
    GroupsExact(ev, groupBy, calls, schema, rows);
    var groups := Groups(ev, groupBy, calls, schema, rows);
    if g < |groups| {
      GroupRowParts(ev, groupBy, calls, groups[g], a);
    }
  }

  function Total(groups: seq<Group>, a: nat): nat
    requires forall g {:trigger groups[g]} :: 0 <= g < |groups| ==> a < |groups[g].accs|
  {
    if groups == [] then 0 else groups[0].accs[a].count + Total(groups[1..], a)
  }

  lemma {:induction false} TotalOfUpdate(groups: seq<Group>, a: nat, g: nat, group: Group)
    requires forall g {:trigger groups[g]} :: 0 <= g < |groups| ==> a < |groups[g].accs|
    requires g < |groups| && a < |group.accs|
    ensures Total(groups[g := group], a) == Total(groups, a) - groups[g].accs[a].count + group.accs[a].count
  {
    if g > 0 {
      TotalOfUpdate(groups[1..], a, g - 1, group);
      assert groups[g := group][1..] == groups[1..][g - 1 := group];
    } else {
      assert groups[g := group][1..] == groups[1..];
    }
  }

  lemma {:induction false} TotalOfNew(groups: seq<Group>, a: nat, group: Group)
    requires forall g {:trigger groups[g]} :: 0 <= g < |groups| ==> a < |groups[g].accs|
    requires a < |group.accs|
    ensures Total(groups + [group], a) == Total(groups, a) + group.accs[a].count
  {
    if groups != [] {
      TotalOfNew(groups[1..], a, group);
      assert (groups + [group])[1..] == groups[1..] + [group];
    } else {
      assert (groups + [group])[1..] == [];
    }
  }

  /** No row is lost and none is counted twice, whatever the equality of floats. */
  lemma {:induction false} CountsAddUp(ev: Evaluator, groupBy: seq<Expr>, calls: seq<Expr>, schema: Schema, rows: seq<Row>, a: nat)
    requires a < |calls|
    ensures Total(Groups(ev, groupBy, calls, schema, rows), a) == |rows|
  {
    if rows != [] {
      var n := |rows| - 1;
      CountsAddUp(ev, groupBy, calls, schema, rows[..n], a);
      var groups := Groups(ev, groupBy, calls, schema, rows[..n]);
      var key := KeyOf(ev, groupBy, schema, rows[n]);
      var g := Find(ev, groups, key);
      var all := Created(calls, groups, g, key);
      if g == |groups| {
        TotalOfNew(groups, a, Group(key, seq(|calls|, _ => NO_ACC)));
      }
      TotalOfUpdate(all, a, g, Entered(ev, calls, schema, all[g], rows[n]));
    }
  }

  /** value_compare orders the values that are not NULL: all of one type, and no float that is no number. */
  ghost predicate Ordered(ev: Evaluator, vs: seq<Value>) {
    forall x, y, z :: x in vs && y in vs && z in vs && x != LNull && y != LNull && z != LNull ==>
      && (ev.compare(x, y) < 0 <==> ev.compare(y, x) > 0)
      && (ev.compare(x, y) <= 0 && ev.compare(y, z) <= 0 ==> ev.compare(x, z) <= 0)
  }

  function Arguments(ev: Evaluator, call: Expr, schema: Schema, members: seq<Row>): seq<Value> {
    seq(|members|, i requires 0 <= i < |members| => Argument(ev, call, schema, members[i]))
  }

  /** The accumulator has a least and a greatest of the values that are not NULL, if there is one. */
  ghost predicate HasExtremes(ev: Evaluator, a: Acc, vs: seq<Value>) {
    && (a.hasValue <==> exists v :: v in vs && v != LNull)
    && (a.hasValue ==> a.min in vs && a.max in vs && a.min != LNull && a.max != LNull)
    && (a.hasValue ==> forall v :: v in vs && v != LNull ==> ev.compare(a.min, v) <= 0 <= ev.compare(a.max, v))
    && (a.hasValue ==> FirstLeast(ev, vs, a.min) && FirstGreatest(ev, vs, a.max))
  }

  /** All earlier values are above `m`. */
  ghost predicate FirstLeast(ev: Evaluator, vs: seq<Value>, m: Value) {
    exists i {:trigger vs[i]} :: 0 <= i < |vs| && vs[i] == m
      && forall j {:trigger vs[j]} :: 0 <= j < i && vs[j] != LNull ==> ev.compare(m, vs[j]) < 0
  }

  ghost predicate FirstGreatest(ev: Evaluator, vs: seq<Value>, m: Value) {
    exists i {:trigger vs[i]} :: 0 <= i < |vs| && vs[i] == m
      && forall j {:trigger vs[j]} :: 0 <= j < i && vs[j] != LNull ==> ev.compare(m, vs[j]) > 0
  }

  lemma LeastKept(ev: Evaluator, vs: seq<Value>, v: Value, m: Value)
    ensures FirstLeast(ev, vs, m) ==> FirstLeast(ev, vs + [v], m)
    ensures (forall w :: w in vs && w != LNull ==> ev.compare(v, w) < 0) ==> FirstLeast(ev, vs + [v], v)
  {
    var all := vs + [v];
    assert all[|vs|] == v;
    if FirstLeast(ev, vs, m) {
      var i :| 0 <= i < |vs| && vs[i] == m && forall j {:trigger vs[j]} :: 0 <= j < i && vs[j] != LNull ==> ev.compare(m, vs[j]) < 0;
      assert all[i] == m;
    }
  }

  lemma GreatestKept(ev: Evaluator, vs: seq<Value>, v: Value, m: Value)
    ensures FirstGreatest(ev, vs, m) ==> FirstGreatest(ev, vs + [v], m)
    ensures (forall w :: w in vs && w != LNull ==> ev.compare(v, w) > 0) ==> FirstGreatest(ev, vs + [v], v)
  {
    var all := vs + [v];
    assert all[|vs|] == v;
    if FirstGreatest(ev, vs, m) {
      var i :| 0 <= i < |vs| && vs[i] == m && forall j {:trigger vs[j]} :: 0 <= j < i && vs[j] != LNull ==> ev.compare(m, vs[j]) > 0;
      assert all[i] == m;
    }
  }

  lemma StrictlyBeyond(ev: Evaluator, vs: seq<Value>, m: Value, v: Value, w: Value)
    requires Ordered(ev, vs) && m in vs && v in vs && w in vs && m != LNull && v != LNull && w != LNull
    ensures ev.compare(v, m) < 0 && ev.compare(m, w) <= 0 ==> ev.compare(v, w) < 0
    ensures ev.compare(v, m) > 0 && ev.compare(m, w) >= 0 ==> ev.compare(v, w) > 0
  {
    Orders(ev, vs, v, m, w);
    Orders(ev, vs, m, w, v);
    Orders(ev, vs, w, v, m);
    Orders(ev, vs, v, w, m);
    Orders(ev, vs, m, v, w);
    Orders(ev, vs, w, m, v);
  }

  lemma Orders(ev: Evaluator, vs: seq<Value>, x: Value, y: Value, z: Value)
    requires Ordered(ev, vs) && x in vs && y in vs && z in vs && x != LNull && y != LNull && z != LNull
    ensures ev.compare(x, y) < 0 <==> ev.compare(y, x) > 0
    ensures ev.compare(x, y) <= 0 && ev.compare(y, z) <= 0 ==> ev.compare(x, z) <= 0
  {
  }

  lemma OneMoreFirst(ev: Evaluator, a: Acc, vs: seq<Value>, v: Value, kind: Kind)
    requires kind != Count && Ordered(ev, vs + [v]) && HasExtremes(ev, a, vs)
    ensures var b := Update(ev, a, v, kind);
            b.hasValue ==> FirstLeast(ev, vs + [v], b.min) && FirstGreatest(ev, vs + [v], b.max)
  {
    LeastKept(ev, vs, v, a.min);
    GreatestKept(ev, vs, v, a.max);
    if a.hasValue && v != LNull {
      var all := vs + [v];
      assert v in all && a.min in all && a.max in all;
      forall w | w in vs && w != LNull
        ensures ev.compare(v, a.min) < 0 ==> ev.compare(v, w) < 0
        ensures ev.compare(v, a.max) > 0 ==> ev.compare(v, w) > 0
      {
        assert w in all;
        StrictlyBeyond(ev, all, a.min, v, w);
        StrictlyBeyond(ev, all, a.max, v, w);
      }
    }
  }

  lemma OneMoreValue(ev: Evaluator, a: Acc, vs: seq<Value>, v: Value, kind: Kind)
    requires kind != Count && Ordered(ev, vs + [v]) && HasExtremes(ev, a, vs)
    ensures HasExtremes(ev, Update(ev, a, v, kind), vs + [v])
  {
    var b, all := Update(ev, a, v, kind), vs + [v];
    assert v in all && forall x :: x in all <==> x in vs || x == v;
    forall w | w in all && w != LNull ensures ev.compare(b.min, w) <= 0 <= ev.compare(b.max, w) {
      Orders(ev, all, w, w, w);
      if v != LNull && a.hasValue {
        Orders(ev, all, v, a.min, w);
        Orders(ev, all, a.min, v, w);
        Orders(ev, all, w, a.max, v);
        Orders(ev, all, w, v, a.max);
      }
    }
    OneMoreFirst(ev, a, vs, v, kind);
  }

  /** MIN and MAX yield NULL exactly if all values are NULL, and otherwise a value that none is below or above. */
  lemma {:induction false} Extremes(ev: Evaluator, call: Expr, schema: Schema, members: seq<Row>)
    requires KindOf(call) != Count && Ordered(ev, Arguments(ev, call, schema, members))
    ensures HasExtremes(ev, Fold(ev, call, schema, members), Arguments(ev, call, schema, members))
  {
    if members != [] {
      var n := |members| - 1;
      var vs := Arguments(ev, call, schema, members);
      var before := Arguments(ev, call, schema, members[..n]);
      assert vs == before + [vs[n]];
      Extremes(ev, call, schema, members[..n]);
      OneMoreValue(ev, Fold(ev, call, schema, members[..n]), before, vs[n], KindOf(call));
    }
  }

  /** The group of all rows. */
  function Whole(ev: Evaluator, calls: seq<Expr>, schema: Schema, rows: seq<Row>): Group {
    Group([LNull], seq(|calls|, a requires 0 <= a < |calls| => Fold(ev, calls[a], schema, rows)))
  }

  lemma WholeGrows(ev: Evaluator, calls: seq<Expr>, schema: Schema, rows: seq<Row>)
    requires rows != []
    ensures Whole(ev, calls, schema, rows) ==
            Entered(ev, calls, schema, Whole(ev, calls, schema, rows[..|rows| - 1]), rows[|rows| - 1])
  {
  }

  /** Without GROUP BY all rows are one group; if there is no row, there is no group either. */
  lemma {:induction false} OneGroup(ev: Evaluator, calls: seq<Expr>, schema: Schema, rows: seq<Row>)
    ensures Groups(ev, [], calls, schema, rows) == if rows == [] then [] else [Whole(ev, calls, schema, rows)]
  {
    if rows != [] {
      var n := |rows| - 1;
      OneGroup(ev, calls, schema, rows[..n]);
      WholeGrows(ev, calls, schema, rows);
      AddRowTo(ev, [], calls, schema, Groups(ev, [], calls, schema, rows[..n]), rows[n], 0);
      assert Whole(ev, calls, schema, []).accs == seq(|calls|, _ => NO_ACC);
    }
  }

  /** `sum` in lower case is none of the names compared with and counts the rows. */
  lemma LowerCaseCounts(ev: Evaluator, arg: Expr, schema: Schema, rows: seq<Row>)
    requires rows != []
    ensures AggregateRows(ev, [], [Call("sum", [arg], false)], schema, rows) == [[LInt(|rows|)]]
  {
    var calls := [Call("sum", [arg], false)];
    OneGroup(ev, calls, schema, rows);
    GroupRowParts(ev, [], calls, Whole(ev, calls, schema, rows), 0);
    assert KindOf(calls[0]) == Count;
    var row := GroupRow(ev, [], calls, Whole(ev, calls, schema, rows));
    assert row == [LInt(|rows|)];
    assert AggregateRows(ev, [], calls, schema, rows) == [row];
  }
}
