/** The pull-based executors (src/executor/execution_engine.c and the scan, filter, project, join, aggregate and
    limit executors): each call hands out the next row of what the plan yields. */
module Executors {
  import opened Wrappers
  import opened Sequences
  import opened ExpressionGrammar
  import opened QueryPlan
  import opened Aggregation
  import opened QuerySemantics

  lemma WhereStep(ev: Evaluator, e: Option<Expr>, schema: Schema, rows: seq<Row>)
    requires rows != []
    ensures WhereIf(ev, e, schema, rows) ==
            if e.None? || ev.holds(e.value, rows[0], schema) then [rows[0]] + WhereIf(ev, e, schema, rows[1..])
            else WhereIf(ev, e, schema, rows[1..])
  {
    assert rows == [rows[0]] + rows[1..];
  }

  lemma OffsetStep(n: int, rows: seq<Row>)
    requires rows != []
    ensures n > 0 ==> Offset(n, rows) == Offset(n - 1, rows[1..])
  {
  }

  /** What a join has still to combine: the rest of the inner rows with the current outer one, and all inner
      rows with each outer row to come. */
  function ToJoin(hasOuter: bool, outer: Row, innerRest: seq<Row>, outerRest: seq<Row>, allInner: seq<Row>): seq<Row> {
    (if hasOuter then Prefixed(outer, innerRest) else []) + Product(outerRest, allInner)
  }

  lemma Beginning(outer: Row, outerRest: seq<Row>, allInner: seq<Row>)
    ensures ToJoin(false, outer, allInner, outerRest, allInner) == Product(outerRest, allInner)
  {
  }

  lemma NextOuter(outer: Row, outerRest: seq<Row>, allInner: seq<Row>)
    requires outerRest != []
    ensures ToJoin(true, outerRest[0], allInner, outerRest[1..], allInner) == ToJoin(false, outer, [], outerRest, allInner)
  {
  }

  lemma NextInner(outer: Row, innerRest: seq<Row>, outerRest: seq<Row>, allInner: seq<Row>)
    requires innerRest != []
    ensures ToJoin(true, outer, innerRest, outerRest, allInner) ==
            [outer + innerRest[0]] + ToJoin(true, outer, innerRest[1..], outerRest, allInner)
  {
    assert Prefixed(outer, innerRest) == [outer + innerRest[0]] + Prefixed(outer, innerRest[1..]);
  }

  lemma NoInner(outer: Row, outerRest: seq<Row>, allInner: seq<Row>)
    ensures ToJoin(true, outer, [], outerRest, allInner) == ToJoin(false, outer, [], outerRest, allInner)
  {
    assert Prefixed(outer, []) == [];
  }

  class Executor {
    const db: Database
    const ev: Evaluator
    const plan: Physical
    /** The only, or the outer, child and the inner child of a join. */
    const child: Executor?
    const inner: Executor?
    var cursor: nat
    var hasOuter: bool
    var currentOuter: Row
    var emitted: int
    var skipped: int
    /** The groups an aggregate executor has made, and how many of them it has handed out. */
    var materialized: bool
    var groups: seq<Group>
    var emitIndex: nat
    ghost const repr: set<object>
    /** The rows still to be handed out. */
    ghost var rest: seq<Row>

    ghost predicate Over(c: Executor?, p: Physical) {
      && c != null && c in repr && c.repr <= repr && this !in c.repr
      && c.plan == p && c.db == db && c.ev == ev
    }

    /** The tree of executors follows the plan. */
    ghost predicate Shape()
      decreases plan
    {
      && this in repr && Buildable(db, plan)
      && match plan
         case SeqScan(_, _) => true
         case PFilter(_, p) => Over(child, p) && child.Shape()
         case PProject(_, p) => Over(child, p) && child.Shape()
         case NestedLoop(_, o, i) =>
           Over(child, o) && Over(inner, i) && child.repr !! inner.repr && child.Shape() && inner.Shape()
         case HashAggregate(_, _, p) => Over(child, p) && child.Shape()
         case PLimit(_, _, p) => Over(child, p) && child.Shape()
    }

    /** `rest` is what the plan still has to yield. */
    ghost predicate Ready()
      requires Shape()
      reads repr
      decreases plan
    {
      match plan
      case SeqScan(table, merged) =>
        cursor <= |db[table].rows| && rest == WhereIf(ev, merged, db[table].schema, db[table].rows[cursor..])
      case PFilter(pred, p) => child.Ready() && rest == Where(ev, pred, OutSchema(db, p), child.rest)
      case PProject(items, p) => child.Ready() && rest == ProjectAll(ev, items, OutSchema(db, p), child.rest)
      case NestedLoop(condition, o, i) =>
        && child.Ready() && inner.Ready()
        && rest == WhereIf(ev, condition, OutSchema(db, plan), ToJoin(hasOuter, currentOuter, inner.rest, child.rest, Rows(db, ev, i)))
      case HashAggregate(groupBy, calls, p) =>
        if materialized then
          Sized(calls, groups) && emitIndex <= |groups| && rest == GroupRows(ev, groupBy, calls, groups)[emitIndex..]
        else child.Ready() && emitIndex == 0 && rest == AggregateRows(ev, groupBy, calls, OutSchema(db, p), child.rest)
      case PLimit(limit, offset, p) =>
        && child.Ready() && emitted >= 0 && skipped >= 0 && (limit >= 0 ==> emitted <= limit)
        && rest == LimitTo(if limit < 0 then limit else limit - emitted, offset - skipped, child.rest)
    }

    constructor (db: Database, ev: Evaluator, plan: Physical, child: Executor?, inner: Executor?)
      requires Buildable(db, plan)
      requires match plan
               case SeqScan(_, _) => true
               case PFilter(_, p) => child != null && child.Shape() && child.plan == p && child.db == db && child.ev == ev
               case PProject(_, p) => child != null && child.Shape() && child.plan == p && child.db == db && child.ev == ev
               case NestedLoop(_, o, i) =>
                 && child != null && child.Shape() && child.plan == o && child.db == db && child.ev == ev
                 && inner != null && inner.Shape() && inner.plan == i && inner.db == db && inner.ev == ev
                 && child.repr !! inner.repr
               case HashAggregate(_, _, p) => child != null && child.Shape() && child.plan == p && child.db == db && child.ev == ev
               case PLimit(_, _, p) => child != null && child.Shape() && child.plan == p && child.db == db && child.ev == ev
      ensures Shape() && this.db == db && this.ev == ev && this.plan == plan
      ensures repr == {this} + (if child != null then child.repr else {}) + (if inner != null then inner.repr else {})
    {
      this.db, this.ev, this.plan, this.child, this.inner := db, ev, plan, child, inner;
      cursor, hasOuter, currentOuter, emitted, skipped := 0, false, [], 0, 0;
      materialized, groups, emitIndex := false, [], 0;
      repr := {this} + (if child != null then child.repr else {}) + (if inner != null then inner.repr else {});
      rest := [];
    }

    /** init: the executor starts its plan from the beginning. */
    method Init()
      requires Shape()
      modifies repr
      ensures Ready() && rest == Rows(db, ev, plan)
      decreases plan, 1
    {
      match plan {
        case SeqScan(_, _) => cursor := 0;
        case PFilter(_, _) => child.Init();
        case PProject(_, _) => child.Init();
        case NestedLoop(_, _, _) => InitJoin();
        case HashAggregate(_, _, _) => InitAggregate();
        case PLimit(_, _, _) => InitLimit();
      }
      rest := Rows(db, ev, plan);
    }

    method InitJoin()
      requires Shape() && plan.NestedLoop?
      modifies repr
      ensures Ready() && rest == Rows(db, ev, plan)
      decreases plan, 0
    {
      hasOuter := false;
      child.Init();
      inner.Init();
      Beginning(currentOuter, child.rest, inner.rest);
      rest := Rows(db, ev, plan);
    }

    method InitAggregate()
      requires Shape() && plan.HashAggregate?
      modifies repr
      ensures Ready() && rest == Rows(db, ev, plan)
      decreases plan, 0
    {
      materialized, emitIndex := false, 0;
      child.Init();
      rest := Rows(db, ev, plan);
    }

    method InitLimit()
      requires Shape() && plan.PLimit?
      modifies repr
      ensures Ready() && rest == Rows(db, ev, plan)
      decreases plan, 0
    {
      emitted, skipped := 0, 0;
      child.Init();
      rest := LimitTo(plan.limit, plan.offset, child.rest);
    }

    /** close; what a closed executor would still hand out is left open. */
    method Close()
      requires Shape()
      modifies repr
      decreases plan
    {
      match plan {
        case SeqScan(_, _) =>
        case PFilter(_, _) => child.Close();
        case PProject(_, _) => child.Close();
        case NestedLoop(_, _, _) =>
          hasOuter := false;
          child.Close();
          inner.Close();
        case HashAggregate(_, _, _) => materialized := false;
        case PLimit(_, _, _) => child.Close();
      }
    }

    /** What every executor's next does. */
    twostate predicate HandedOut(found: bool, row: Row)
      requires Shape()
      reads repr
    {
      && Ready() && (found <==> old(rest) != [])
      && (if found then row == old(rest)[0] && rest == old(rest)[1..] else rest == [])
    }

    method Next() returns (found: bool, row: Row)
      requires Shape() && Ready()
      modifies repr
      ensures HandedOut(found, row)
      decreases plan, 1
    {
      match plan {
        case SeqScan(_, _) => found, row := ScanNext();
        case PFilter(_, _) => found, row := FilterNext();
        case PProject(_, _) => found, row := ProjectNext();
        case NestedLoop(_, _, _) => found, row := JoinNext();
        case HashAggregate(_, _, _) => found, row := AggregateNext();
        case PLimit(_, _, _) => found, row := LimitNext();
      }
    }

    /** seq_scan_next: rows that do not pass the merged filter are passed over. */
    method ScanNext() returns (found: bool, row: Row)
      requires Shape() && Ready() && plan.SeqScan?
      modifies repr
      ensures HandedOut(found, row)
      decreases plan, 0
    {
      var table := db[plan.table];
      while cursor < |table.rows|
        invariant Ready() && rest == old(rest)
        decreases |table.rows| - cursor
      {
        row := table.rows[cursor];
        WhereStep(ev, plan.merged, table.schema, table.rows[cursor..]);
        assert table.rows[cursor..][1..] == table.rows[cursor + 1..];
        cursor := cursor + 1;
        if plan.merged.None? || ev.holds(plan.merged.value, row, table.schema) {
          rest := rest[1..];
          return true, row;
        }
      }
      return false, [];
    }

    /** filter_next. */
    method FilterNext() returns (found: bool, row: Row)
      requires Shape() && Ready() && plan.PFilter?
      modifies repr
      ensures HandedOut(found, row)
      decreases plan, 0
    {
      while true
        invariant Ready() && rest == old(rest)
        decreases |child.rest|
      {
        ghost var rows := child.rest;
        found, row := child.Next();
        if !found {
          return;
        }
        WhereStep(ev, Some(plan.pred), OutSchema(db, plan), rows);
        if ev.holds(plan.pred, row, OutSchema(db, plan)) {
          rest := rest[1..];
          return;
        }
      }
    }

    /** project_next: column i is the value of expression i on the child's row. */
    method ProjectNext() returns (found: bool, row: Row)
      requires Shape() && Ready() && plan.PProject?
      modifies repr
      ensures HandedOut(found, row)
      ensures found <==> old(child.rest) != []
      ensures found ==> |row| == |plan.items| && forall i {:trigger plan.items[i]} :: 0 <= i < |plan.items| ==>
                row[i] == ev.value(plan.items[i], old(child.rest)[0], OutSchema(db, plan.child))
      decreases plan, 0
    {
      var childRow;
      found, childRow := child.Next();
      if !found {
        return false, [];
      }
      row := [];
      for i := 0 to |plan.items|
        invariant row == ProjectRow(ev, plan.items, OutSchema(db, plan.child), childRow)[..i]
      {
        row := row + [ev.value(plan.items[i], childRow, OutSchema(db, plan.child))];
      }
      rest := rest[1..];
    }

    /** The loop that calls next until it ends: all rows still to come. */
    method TakeRest() returns (rows: seq<Row>)
      requires Shape() && Ready()
      modifies repr
      ensures rows == old(rest)
      decreases plan, 2
    {
      rows := [];
      ghost var left := rest;
      while true
        invariant Ready() && rest == left && rows + left == old(rest)
        decreases |left|
      {
        var found, row := Next();
        if !found {
          return;
        }
        HeadTaken(rows, left);
        rows, left := rows + [row], left[1..];
      }
    }

    /** The key of a row. */
    method GroupKey(row: Row) returns (key: Row)
      requires Shape() && plan.HashAggregate?
      ensures key == KeyOf(ev, plan.groupBy, OutSchema(db, plan.child), row)
    {
      key := [];
      for i := 0 to |plan.groupBy|
        invariant key == seq(i, j requires 0 <= j < i => ev.value(plan.groupBy[j], row, OutSchema(db, plan.child)))
      {
        key := key + [ev.value(plan.groupBy[i], row, OutSchema(db, plan.child))];
      }
      if |plan.groupBy| == 0 {
        key := [LNull];
      }
    }

    /** The search for the group of a key. */
    method FindGroup(key: Row) returns (found: nat)
      ensures found == Find(ev, groups, key)
    {
      found := 0;
      while found < |groups| && !SameKey(ev, groups[found].key, key)
        invariant found <= |groups| && found + Find(ev, groups[found..], key) == Find(ev, groups, key)
      {
        assert groups[found..][1..] == groups[found + 1..];
        found := found + 1;
      }
    }

    /** The aggregates of one group, updated with a row. */
    method UpdateGroup(g: nat, row: Row)
      requires Shape() && plan.HashAggregate? && Sized(plan.calls, groups) && g < |groups|
      modifies this`groups
      ensures var schema := OutSchema(db, plan.child);
              groups == old(groups)[g := Entered(ev, plan.calls, schema, old(groups)[g], row)]
    {
      var schema, accs := OutSchema(db, plan.child), groups[g].accs;
      for a := 0 to |plan.calls|
        invariant |accs| == |plan.calls| && accs[a..] == groups[g].accs[a..]
        invariant accs[..a] == Updated(ev, plan.calls, schema, groups[g].accs, row)[..a]
      {
        assert accs[a] == accs[a..][0];
        var call := plan.calls[a];
        accs := accs[a := Update(ev, accs[a], Argument(ev, call, schema, row), KindOf(call))];
      }
      assert accs == Updated(ev, plan.calls, schema, groups[g].accs, row);
      groups := groups[g := groups[g].(accs := accs)];
    }

    ghost function GroupsOver(rows: seq<Row>): seq<Group>
      requires Shape() && plan.HashAggregate?
    {
      Groups(ev, plan.groupBy, plan.calls, OutSchema(db, plan.child), rows)
    }

    /** One turn of materialize: the row goes to the group of its key. */
    method EnterRow(row: Row, ghost taken: seq<Row>)
      requires Shape() && plan.HashAggregate? && groups == GroupsOver(taken)
      modifies this`groups
      ensures groups == GroupsOver(taken + [row])
    {
      GroupsOfMore(ev, plan.groupBy, plan.calls, OutSchema(db, plan.child), taken, row);
      var key := GroupKey(row);
      var found := FindGroup(key);
      if found == |groups| {
        groups := groups + [Group(key, seq(|plan.calls|, _ => NO_ACC))];
      }
      UpdateGroup(found, row);
    }

    /** The loop of materialize over the rows of the child. */
    method EnterRows()
      requires Shape() && plan.HashAggregate? && child.Ready()
      modifies this`groups, child.repr
      ensures groups == GroupsOver(old(child.rest))
      decreases plan, 0, 0
    {
      groups := [];
      ghost var taken, left := [], child.rest;
      while true
        invariant child.Ready() && child.rest == left && taken + left == old(child.rest) && groups == GroupsOver(taken)
        decreases |left|
      {
        var found, row := child.Next();
        if !found {
          assert taken == old(child.rest);
          return;
        }
        HeadTaken(taken, left);
        EnterRow(row, taken);
        taken, left := taken + [row], left[1..];
      }
    }

    /** materialize: the groups are made of all rows of the child. */
    method Materialize()
      requires Shape() && Ready() && plan.HashAggregate? && !materialized
      modifies repr
      ensures Ready() && materialized && emitIndex == 0 && rest == old(rest)
      decreases plan, 0, 1
    {
      EnterRows();
      child.Close();
      materialized := true;
    }

    /** hash_agg_next. */
    method AggregateNext() returns (found: bool, row: Row)
      requires Shape() && Ready() && plan.HashAggregate?
      modifies repr
      ensures HandedOut(found, row)
      decreases plan, 0, 2
    {
      if !materialized {
        Materialize();
      }
      if emitIndex >= |groups| {
        return false, [];
      }
      found, row := true, GroupRow(ev, plan.groupBy, plan.calls, groups[emitIndex]);
      emitIndex := emitIndex + 1;
      rest := rest[1..];
    }

    /** One row of the offset. */
    method SkipRow() returns (found: bool)
      requires Shape() && Ready() && plan.PLimit? && skipped < plan.offset
      modifies repr
      ensures Ready() && rest == old(rest) && emitted == old(emitted)
      ensures if found then skipped == old(skipped) + 1 else rest == []
      decreases plan, 0, 0
    {
      ghost var rows := child.rest;
      var row;
      found, row := child.Next();
      if found {
        OffsetStep(plan.offset - skipped, rows);
        skipped := skipped + 1;
      }
    }

    /** limit_next. */
    method LimitNext() returns (found: bool, row: Row)
      requires Shape() && Ready() && plan.PLimit?
      modifies repr
      ensures HandedOut(found, row)
      decreases plan, 0, 1
    {
      if plan.limit >= 0 && emitted >= plan.limit {
        return false, [];
      }
      while skipped < plan.offset
        invariant Ready() && rest == old(rest) && emitted == old(emitted)
        decreases plan.offset - skipped
      {
        found := SkipRow();
        if !found {
          return false, [];
        }
      }
      found, row := EmitRow();
    }

    /** One row of the limit. */
    method EmitRow() returns (found: bool, row: Row)
      requires Shape() && Ready() && plan.PLimit? && skipped >= plan.offset && (plan.limit >= 0 ==> emitted < plan.limit)
      modifies repr
      ensures HandedOut(found, row)
      decreases plan, 0, 0
    {
      found, row := child.Next();
      if found {
        emitted := emitted + 1;
        rest := rest[1..];
      }
    }

    /** The next outer row; the inner executor is closed and starts again. */
    method FetchOuter() returns (found: bool)
      requires Shape() && Ready() && plan.NestedLoop? && !hasOuter
      modifies repr
      ensures Ready() && rest == old(rest) && hasOuter == found
      ensures if found then |child.rest| == |old(child.rest)| - 1 else child.rest == []
      decreases plan, 0, 0
    {
      ghost var rows := child.rest;
      var row;
      found, row := child.Next();
      if !found {
        return;
      }
      NextOuter(currentOuter, rows, Rows(db, ev, plan.inner));
      currentOuter, hasOuter := row, true;
      inner.Close();
      inner.Init();
    }

    /** The inner rows for the current outer row, until one passes the join condition. */
    method ScanInner() returns (found: bool, row: Row)
      requires Shape() && Ready() && plan.NestedLoop? && hasOuter
      modifies repr
      ensures Ready() && hasOuter && child.rest == old(child.rest)
      ensures if found then HandedOut(true, row) else rest == old(rest) && inner.rest == []
      decreases plan, 0, 0
    {
      while true
        invariant Ready() && hasOuter && rest == old(rest) && child.rest == old(child.rest)
        decreases |inner.rest|
      {
        ghost var rows, all := inner.rest, Rows(db, ev, plan.inner);
        var innerRow;
        found, innerRow := inner.Next();
        if !found {
          return false, [];
        }
        NextInner(currentOuter, rows, child.rest, all);
        WhereStep(ev, plan.condition, OutSchema(db, plan), ToJoin(true, currentOuter, rows, child.rest, all));
        row := currentOuter + innerRow;
        if plan.condition.None? || ev.holds(plan.condition.value, row, OutSchema(db, plan)) {
          rest := rest[1..];
          return;
        }
      }
    }

    /** nl_join_next. */
    method JoinNext() returns (found: bool, row: Row)
      requires Shape() && Ready() && plan.NestedLoop?
      modifies repr
      ensures HandedOut(found, row)
      decreases plan, 0, 1
    {
      while true
        invariant Ready() && rest == old(rest)
        decreases |child.rest|, hasOuter
      {
        if !hasOuter {
          found := FetchOuter();
          if !found {
            return false, [];
          }
        }
        found, row := ScanInner();
        if found {
          return;
        }
        NoInner(currentOuter, child.rest, Rows(db, ev, plan.inner));
        hasOuter := false;
      }
    }
  }

  /** build_executor: nothing is built if a table is missing. */
  method BuildExecutor(db: Database, ev: Evaluator, plan: Physical) returns (e: Executor?)
    ensures e == null <==> !Buildable(db, plan)
    ensures e != null ==> e.Shape() && e.plan == plan && e.db == db && e.ev == ev && fresh(e.repr)
    decreases plan
  {
    var child, inner: Executor? := null, null;
    match plan {
      case SeqScan(table, _) =>
        if table !in db {
          return null;
        }
      case PFilter(_, p) =>
        child := BuildExecutor(db, ev, p);
      case PProject(_, p) =>
        child := BuildExecutor(db, ev, p);
      case NestedLoop(_, o, i) =>
        child := BuildExecutor(db, ev, o);
        inner := BuildExecutor(db, ev, i);
        if inner == null {
          return null;
        }
      case HashAggregate(_, _, p) =>
        child := BuildExecutor(db, ev, p);
      case PLimit(_, _, p) =>
        child := BuildExecutor(db, ev, p);
    }
    if !plan.SeqScan? && child == null {
      return null;
    }
    e := new Executor(db, ev, plan, child, inner);
  }

  /** The drain loop of execute_dml. */
  method Drain(exec: Executor) returns (rows: seq<Row>)
    requires exec.Shape()
    modifies exec.repr
    ensures rows == Rows(exec.db, exec.ev, exec.plan)
  {
    exec.Init();
    rows := exec.TakeRest();
    exec.Close();
  }

  /** execute_dml for SELECT: the drained rows are what the statement means, in order; there is no result exactly
      if a table is unknown or none is named. */
  method ExecuteSelect(db: Database, ev: Evaluator, stmt: Select) returns (result: Option<seq<Row>>)
    requires "" !in db
    ensures result.Some? <==> Answerable(db, stmt)
    ensures Answerable(db, stmt) ==> result == Some(Meaning(db, ev, stmt)) && (true <==> Answers(db, ev, stmt, result.value))
  {
    var logical := PlanSelect(db, stmt);
    BuiltIff(db, stmt);
    if logical.None? {
      return None;
    }
    var exec := BuildExecutor(db, ev, Convert(logical.value));
    if exec == null {
      return None;
    }
    PlanMeans(db, ev, stmt);
    MeaningAnswers(db, ev, stmt);
    var rows := Drain(exec);
    result := Some(rows);
  }
}
