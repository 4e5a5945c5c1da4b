/** The planner for SELECT without ordering (src/planner/planner.c), on a catalog without indexes. */
module QueryPlan {
  import opened Wrappers
  import opened ExpressionGrammar

  type Value = Literal
  type Row = seq<Value>
  type Schema = seq<string>

  datatype Table = Table(schema: Schema, rows: seq<Row>)
  type Database = map<string, Table>

  datatype Join = Join(table: string, condition: Option<Expr>)

  /** A negative limit stands for no limit. */
  datatype Select = Select(from: seq<string>, joins: seq<Join>, filter: Option<Expr>, groupBy: seq<Expr>,
                           having: Option<Expr>, items: seq<Expr>, limit: int, offset: int)

  datatype Logical =
    | Scan(table: string)
    | Filter(pred: Expr, child: Logical)
    | Project(items: seq<Expr>, child: Logical)
    | Joined(condition: Option<Expr>, left: Logical, right: Logical)
    | Aggregate(groupBy: seq<Expr>, calls: seq<Expr>, child: Logical)
    | Limit(limit: int, offset: int, child: Logical)

  datatype Physical =
    | SeqScan(table: string, merged: Option<Expr>)
    | PFilter(pred: Expr, child: Physical)
    | PProject(items: seq<Expr>, child: Physical)
    | NestedLoop(condition: Option<Expr>, outer: Physical, inner: Physical)
    | HashAggregate(groupBy: seq<Expr>, calls: seq<Expr>, child: Physical)
    | PLimit(limit: int, offset: int, child: Physical)

  /** SELECT * needs no projection. */
  predicate IsStar(items: seq<Expr>) {
    |items| == 1 && items[0].Column? && items[0].column == "*"
  }

  /** What is joined to the first table: the JOIN clauses, then the other tables of the FROM clause. */
  function Sources(stmt: Select): seq<Join>
    requires stmt.from != []
  {
    stmt.joins + seq(|stmt.from| - 1, i requires 0 <= i < |stmt.from| - 1 => Join(stmt.from[i + 1], None))
  }

  predicate Known(db: Database, sources: seq<Join>) {
    forall i {:trigger sources[i]} :: 0 <= i < |sources| ==> sources[i].table in db
  }

  /** The left-deep join of the first table with the sources. */
  function LeftDeep(first: Logical, sources: seq<Join>): Logical {
    if sources == [] then first
    else
      var s := sources[|sources| - 1];
      Joined(s.condition, LeftDeep(first, sources[..|sources| - 1]), Scan(s.table))
  }

  /** The items that are function calls, all of which count as aggregates. */
  function Calls(items: seq<Expr>): seq<Expr> {
    if items == [] then []
    else Calls(items[..|items| - 1]) + if items[|items| - 1].Call? then [items[|items| - 1]] else []
  }

  /** They are all the calls among the items, in their order. */
  lemma {:induction false} CallsInOrder(items: seq<Expr>) returns (at: seq<nat>)
    ensures |at| == |Calls(items)| && forall k {:trigger at[k]} :: 0 <= k < |at| ==> at[k] < |items| && Calls(items)[k] == items[at[k]]
    ensures forall k, l {:trigger at[k], at[l]} :: 0 <= k < l < |at| ==> at[k] < at[l]
    ensures forall i: nat {:trigger items[i]} :: i < |items| ==> (items[i].Call? <==> i in at)
  {
    if items == [] {
      at := [];
    } else {
      var n := |items| - 1;
      at := CallsInOrder(items[..n]);
      if items[n].Call? {
        at := at + [n];
      }
    }
  }

  predicate Aggregated(stmt: Select) {
    stmt.groupBy != [] || Calls(stmt.items) != []
  }

  /** A statement is aggregated if it groups or calls any function, whatever its name, at the top of a select item. */
  lemma AggregatedIff(stmt: Select)
    ensures Aggregated(stmt) <==> stmt.groupBy != [] || exists i {:trigger stmt.items[i]} :: 0 <= i < |stmt.items| && stmt.items[i].Call?
  {
    var at := CallsInOrder(stmt.items);
    if at != [] {
      assert stmt.items[at[0]].Call?;
    }
  }

  function FilteredBy(pred: Option<Expr>, source: Logical): Logical {
    if pred.Some? then Filter(pred.value, source) else source
  }

  function Grouped(stmt: Select, source: Logical): Logical {
    if Aggregated(stmt) then Aggregate(stmt.groupBy, Calls(stmt.items), source) else source
  }

  function Projected(stmt: Select, source: Logical): Logical {
    if stmt.items != [] && !IsStar(stmt.items) then Project(stmt.items, source) else source
  }

  function Limited(stmt: Select, source: Logical): Logical {
    if stmt.limit >= 0 then Limit(stmt.limit, stmt.offset, source) else source
  }

  function Top(stmt: Select, source: Logical): Logical {
    Limited(stmt, Projected(stmt, FilteredBy(stmt.having, Grouped(stmt, FilteredBy(stmt.filter, source)))))
  }

  function LogicalOf(db: Database, stmt: Select): Option<Logical> {
    if stmt.from == [] then Some(Top(stmt, Scan("")))
    else if stmt.from[0] in db && Known(db, Sources(stmt)) then
      Some(Top(stmt, LeftDeep(Scan(stmt.from[0]), Sources(stmt))))
    else None
  }

  /** The first `n` sources are in the plan. */
  ghost predicate Planned(db: Database, first: Logical, sources: seq<Join>, n: nat, plan: Logical) {
    n <= |sources| && plan == LeftDeep(first, sources[..n]) && Known(db, sources[..n])
  }

  lemma OneMore(db: Database, first: Logical, sources: seq<Join>, n: nat, plan: Logical, s: Join)
    requires Planned(db, first, sources, n, plan) && n < |sources| && s == sources[n]
    ensures s.table in db ==> Planned(db, first, sources, n + 1, Joined(s.condition, plan, Scan(s.table)))
    ensures s.table !in db ==> !Known(db, sources)
  {
    assert sources[..n + 1][..n] == sources[..n];
  }

  /** The JOIN clauses come first, then the other tables of the FROM clause. */
  ghost predicate Listed(stmt: Select, sources: seq<Join>) {
    && stmt.from != [] && |sources| == |stmt.joins| + |stmt.from| - 1
    && (forall i {:trigger stmt.joins[i]} :: 0 <= i < |stmt.joins| ==> sources[i] == stmt.joins[i])
    && (forall i {:trigger stmt.from[i]} :: 1 <= i < |stmt.from| ==> sources[|stmt.joins| + i - 1] == Join(stmt.from[i], None))
  }

  lemma SourcesListed(stmt: Select)
    requires stmt.from != []
    ensures Listed(stmt, Sources(stmt))
  {
  }

  lemma AllPlanned(db: Database, first: Logical, sources: seq<Join>, plan: Logical)
    requires Planned(db, first, sources, |sources|, plan)
    ensures Known(db, sources) && plan == LeftDeep(first, sources)
  {
    assert sources[..|sources|] == sources;
  }

  /** One turn of either loop: the next source, if the catalog has its table. */
  method JoinSource(db: Database, s: Join, plan: Logical, ghost first: Logical, ghost sources: seq<Join>, ghost n: nat)
    returns (next: Option<Logical>)
    requires Planned(db, first, sources, n, plan) && n < |sources| && s == sources[n]
    ensures next.None? ==> !Known(db, sources)
    ensures next.Some? ==> Planned(db, first, sources, n + 1, next.value)
  {
    OneMore(db, first, sources, n, plan, s);
    if s.table !in db {
      return None;
    }
    next := Some(Joined(s.condition, plan, Scan(s.table)));
  }

  /** The loop over the JOIN clauses. */
  method PlanJoins(db: Database, stmt: Select, first: Logical, ghost sources: seq<Join>) returns (current: Option<Logical>)
    requires Listed(stmt, sources)
    ensures current.None? ==> !Known(db, sources)
    ensures current.Some? ==> Planned(db, first, sources, |stmt.joins|, current.value)
  {
    current := Some(first);
    for i := 0 to |stmt.joins|
      invariant current.Some? && Planned(db, first, sources, i, current.value)
    {
      current := JoinSource(db, stmt.joins[i], current.value, first, sources, i);
      if current.None? {
        return;
      }
    }
  }

  /** The loop over the other tables of the FROM clause. */
  method PlanTables(db: Database, stmt: Select, first: Logical, joined: Logical, ghost sources: seq<Join>)
    returns (current: Option<Logical>)
    requires Listed(stmt, sources) && Planned(db, first, sources, |stmt.joins|, joined)
    ensures current.None? ==> !Known(db, sources)
    ensures current.Some? ==> Planned(db, first, sources, |sources|, current.value)
  {
    current := Some(joined);
    for i := 1 to |stmt.from|
      invariant current.Some? && Planned(db, first, sources, |stmt.joins| + i - 1, current.value)
    {
      current := JoinSource(db, Join(stmt.from[i], None), current.value, first, sources, |stmt.joins| + i - 1);
      if current.None? {
        return;
      }
    }
  }

  /** The part of plan_select for FROM and JOIN. */
  method PlanSource(db: Database, stmt: Select) returns (current: Option<Logical>)
    requires stmt.from != []
    ensures current == if stmt.from[0] in db && Known(db, Sources(stmt)) then Some(LeftDeep(Scan(stmt.from[0]), Sources(stmt)))
                       else None
  {
    ghost var sources := Sources(stmt);
    SourcesListed(stmt);
    var first := Scan(stmt.from[0]);
    if stmt.from[0] !in db {
      return None;
    }
    current := PlanJoins(db, stmt, first, sources);
    if current.None? {
      return;
    }
    current := PlanTables(db, stmt, first, current.value, sources);
    if current.Some? {
      AllPlanned(db, first, sources, current.value);
    }
  }

  /** The loops that look for function calls in the select list. */
  method PickCalls(items: seq<Expr>) returns (calls: seq<Expr>)
    ensures calls == Calls(items)
  {
    calls := [];
    for i := 0 to |items|
      invariant calls == Calls(items[..i])
    {
      assert items[..i + 1][..i] == items[..i];
      if items[i].Call? {
        calls := calls + [items[i]];
      }
    }
    assert items[..|items|] == items;
  }

  /** plan_select. */
  method PlanSelect(db: Database, stmt: Select) returns (plan: Option<Logical>)
    ensures plan == LogicalOf(db, stmt)
  {
    var current := Scan("");
    if stmt.from != [] {
      var source := PlanSource(db, stmt);
      if source.None? {
        return None;
      }
      current := source.value;
    }
    if stmt.filter.Some? {
      current := Filter(stmt.filter.value, current);
    }
    if |stmt.groupBy| > 0 || |stmt.items| > 0 {
      var calls := PickCalls(stmt.items);
      if |stmt.groupBy| > 0 || |calls| > 0 {
        current := Aggregate(stmt.groupBy, calls, current);
      }
    }
    if stmt.having.Some? {
      current := Filter(stmt.having.value, current);
    }
    if stmt.items != [] && !IsStar(stmt.items) {
      current := Project(stmt.items, current);
    }
    if stmt.limit >= 0 {
      current := Limit(stmt.limit, stmt.offset, current);
    }
    plan := Some(current);
  }

  /** convert_logical: a filter right above a scan becomes the scan's predicate. */
  function Convert(plan: Logical): Physical {
    match plan
    case Scan(table) => SeqScan(table, None)
    case Filter(pred, Scan(table)) => SeqScan(table, Some(pred))
    case Filter(pred, child) => PFilter(pred, Convert(child))
    case Project(items, child) => PProject(items, Convert(child))
    case Joined(condition, left, right) => NestedLoop(condition, Convert(left), Convert(right))
    case Aggregate(groupBy, calls, child) => HashAggregate(groupBy, calls, Convert(child))
    case Limit(limit, offset, child) => PLimit(limit, offset, Convert(child))
  }
}
