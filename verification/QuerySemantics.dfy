/** What a plan yields and what a SELECT means, both as lists of rows. */
module QuerySemantics {
  import opened Wrappers
  import opened ExpressionGrammar
  import opened QueryPlan
  import opened Aggregation

  /** An aggregate executor has no output schema. */
  const NO_SCHEMA: Schema := []

  function Where(ev: Evaluator, e: Expr, schema: Schema, rows: seq<Row>): seq<Row> {
    if rows == [] then []
    else if ev.holds(e, rows[0], schema) then [rows[0]] + Where(ev, e, schema, rows[1..])
    else Where(ev, e, schema, rows[1..])
  }

  function WhereIf(ev: Evaluator, e: Option<Expr>, schema: Schema, rows: seq<Row>): seq<Row> {
    if e.Some? then Where(ev, e.value, schema, rows) else rows
  }

  function ProjectRow(ev: Evaluator, items: seq<Expr>, schema: Schema, row: Row): Row {
    seq(|items|, i requires 0 <= i < |items| => ev.value(items[i], row, schema))
  }

  function ProjectAll(ev: Evaluator, items: seq<Expr>, schema: Schema, rows: seq<Row>): seq<Row> {
    seq(|rows|, i requires 0 <= i < |rows| => ProjectRow(ev, items, schema, rows[i]))
  }

  function Prefixed(row: Row, rows: seq<Row>): seq<Row> {
    seq(|rows|, i requires 0 <= i < |rows| => row + rows[i])
  }

  /** Every row of the left with every row of the right, the left one varying slowest. */
  function Product(left: seq<Row>, right: seq<Row>): seq<Row> {
    if left == [] then [] else Prefixed(left[0], right) + Product(left[1..], right)
  }

  function Offset(n: int, rows: seq<Row>): seq<Row> {
    if n <= 0 then rows else if n > |rows| then [] else rows[n..]
  }

  function First(n: int, rows: seq<Row>): seq<Row>
    requires n >= 0
  {
    if n > |rows| then rows else rows[..n]
  }

  function LimitTo(limit: int, offset: int, rows: seq<Row>): seq<Row> {
    if limit < 0 then Offset(offset, rows) else First(limit, Offset(offset, rows))
  }

  // ---------------------------------------------------------------------------------------------
  // Plans

  predicate Buildable(db: Database, p: Physical) {
    match p
    case SeqScan(table, _) => table in db
    case PFilter(_, child) => Buildable(db, child)
    case PProject(_, child) => Buildable(db, child)
    case NestedLoop(_, outer, inner) => Buildable(db, outer) && Buildable(db, inner)
    case HashAggregate(_, _, child) => Buildable(db, child)
    case PLimit(_, _, child) => Buildable(db, child)
  }

  /** The column names build_executor gives to a node's output. */
  function OutSchema(db: Database, p: Physical): Schema
    requires Buildable(db, p)
  {
    match p
    case SeqScan(table, _) => db[table].schema
    case PFilter(_, child) => OutSchema(db, child)
    case PProject(items, child) =>
      var schema := OutSchema(db, child);
      seq(|items|, i requires 0 <= i < |items| => ItemName(items[i], i, schema))
    case NestedLoop(_, outer, inner) => OutSchema(db, outer) + OutSchema(db, inner)
    case HashAggregate(_, _, _) => NO_SCHEMA
    case PLimit(_, _, child) => OutSchema(db, child)
  }

  function ItemName(e: Expr, i: nat, source: Schema): string {
    if e.Column? && source != NO_SCHEMA then e.column else "col" + Digits(i)
  }

  function Digits(i: nat): string {
    var last := ["0123456789"[i % 10]];
    if i < 10 then last else Digits(i / 10) + last
  }

  function Numeral(s: string): int {
    if s == "" then 0 else 10 * Numeral(s[..|s| - 1]) + (s[|s| - 1] as int - '0' as int)
  }

  lemma {:induction false} DigitsAreNumeral(i: nat)
    ensures var s := Digits(i);
            && s != "" && Numeral(s) == i && (forall k {:trigger s[k]} :: 0 <= k < |s| ==> '0' <= s[k] <= '9')
            && (i > 0 ==> s[0] != '0')
    decreases i
  {
    var s := Digits(i);
    assert s[|s| - 1] as int - '0' as int == i % 10;
    if i >= 10 {
      DigitsAreNumeral(i / 10);
      assert s[..|s| - 1] == Digits(i / 10);
    }
  }

  /** A projected column keeps its name; any other expression is called `col` with its number, as is every one on top
      of an aggregate. */
  lemma ResultNames(db: Database, items: seq<Expr>, child: Physical, i: nat)
    requires Buildable(db, child) && i < |items|
    ensures var names := OutSchema(db, PProject(items, child));
            && |names| == |items|
            && if items[i].Column? && OutSchema(db, child) != NO_SCHEMA then names[i] == items[i].column
               else |names[i]| > 3 && names[i][..3] == "col" && Numeral(names[i][3..]) == i
  {
    DigitsAreNumeral(i);
    assert ("col" + Digits(i))[3..] == Digits(i);
  }

  function Rows(db: Database, ev: Evaluator, p: Physical): seq<Row>
    requires Buildable(db, p)
  {
    match p
    case SeqScan(table, merged) => WhereIf(ev, merged, db[table].schema, db[table].rows)
    case PFilter(pred, child) => Where(ev, pred, OutSchema(db, child), Rows(db, ev, child))
    case PProject(items, child) => ProjectAll(ev, items, OutSchema(db, child), Rows(db, ev, child))
    case NestedLoop(condition, outer, inner) =>
      WhereIf(ev, condition, OutSchema(db, outer) + OutSchema(db, inner),
              Product(Rows(db, ev, outer), Rows(db, ev, inner)))
    case HashAggregate(groupBy, calls, child) => AggregateRows(ev, groupBy, calls, OutSchema(db, child), Rows(db, ev, child))
    case PLimit(limit, offset, child) => LimitTo(limit, offset, Rows(db, ev, child))
  }

  // ---------------------------------------------------------------------------------------------
  // Statements

  /** The first table and the sources joined to it, all known to the catalog. */
  predicate Answerable(db: Database, stmt: Select) {
    stmt.from != [] && stmt.from[0] in db && Known(db, Sources(stmt))
  }

  function SourceSchema(db: Database, first: string, sources: seq<Join>): Schema
    requires first in db && Known(db, sources)
  {
    if sources == [] then db[first].schema
    else SourceSchema(db, first, sources[..|sources| - 1]) + db[sources[|sources| - 1].table].schema
  }

  /** The nested product of the tables, each join condition applied as soon as its table is there. */
  function SourceRows(db: Database, ev: Evaluator, first: string, sources: seq<Join>): seq<Row>
    requires first in db && Known(db, sources)
  {
    if sources == [] then db[first].rows
    else
      var s := sources[|sources| - 1];
      WhereIf(ev, s.condition, SourceSchema(db, first, sources),
              Product(SourceRows(db, ev, first, sources[..|sources| - 1]), db[s.table].rows))
  }

  /** What the clauses behind FROM and JOIN make of rows. */
  function ClausesMean(ev: Evaluator, stmt: Select, schema: Schema, rows: seq<Row>): seq<Row> {
    var filtered := WhereIf(ev, stmt.filter, schema, rows);
    var grouped := if Aggregated(stmt) then AggregateRows(ev, stmt.groupBy, Calls(stmt.items), schema, filtered) else filtered;
    var schema' := if Aggregated(stmt) then NO_SCHEMA else schema;
    var having := WhereIf(ev, stmt.having, schema', grouped);
    var projected := if stmt.items == [] || IsStar(stmt.items) then having
                     else ProjectAll(ev, stmt.items, schema', having);
    Cut(stmt, projected)
  }

  function Cut(stmt: Select, rows: seq<Row>): seq<Row> {
    if stmt.limit < 0 then rows else First(stmt.limit, Offset(stmt.offset, rows))
  }

  /** The rows that the clauses in front of the select list leave, and the column names they go by. */
  function SelectedRows(ev: Evaluator, stmt: Select, schema: Schema, rows: seq<Row>): seq<Row> {
    var filtered := WhereIf(ev, stmt.filter, schema, rows);
    if Aggregated(stmt) then
      WhereIf(ev, stmt.having, NO_SCHEMA, AggregateRows(ev, stmt.groupBy, Calls(stmt.items), schema, filtered))
    else WhereIf(ev, stmt.having, schema, filtered)
  }

  /** `result` is what SELECT with LIMIT and OFFSET hands out of the rows selected: those from number `start` on, as many
      as the limit allows and there are; of each row the values of the select list, or the row itself for a star. */
  ghost predicate HandsOut(ev: Evaluator, stmt: Select, names: Schema, selected: seq<Row>, result: seq<Row>) {
    var start := if stmt.limit < 0 || stmt.offset < 0 then 0 else stmt.offset;
    var left := if start <= |selected| then |selected| - start else 0;
    && |result| == (if 0 <= stmt.limit < left then stmt.limit else left)
    && forall j {:trigger result[j]} :: 0 <= j < |result| ==>
         if stmt.items == [] || (|stmt.items| == 1 && stmt.items[0].Column? && stmt.items[0].column == "*")
         then result[j] == selected[start + j]
         else
           && |result[j]| == |stmt.items|
           && forall i {:trigger stmt.items[i]} :: 0 <= i < |stmt.items| ==>
                result[j][i] == ev.value(stmt.items[i], selected[start + j], names)
  }

  lemma CutAt(stmt: Select, rows: seq<Row>)
    ensures var start := if stmt.limit < 0 || stmt.offset < 0 then 0 else stmt.offset;
            var left := if start <= |rows| then |rows| - start else 0;
            && |Cut(stmt, rows)| == (if 0 <= stmt.limit < left then stmt.limit else left)
            && forall j {:trigger Cut(stmt, rows)[j]} :: 0 <= j < |Cut(stmt, rows)| ==> Cut(stmt, rows)[j] == rows[start + j]
  {
  }

  lemma ClausesAre(ev: Evaluator, stmt: Select, schema: Schema, rows: seq<Row>)
    ensures var selected := SelectedRows(ev, stmt, schema, rows);
            ClausesMean(ev, stmt, schema, rows) ==
            Cut(stmt, if stmt.items == [] || IsStar(stmt.items) then selected
                      else ProjectAll(ev, stmt.items, if Aggregated(stmt) then NO_SCHEMA else schema, selected))
  {
  }

  lemma StarHandsOut(ev: Evaluator, stmt: Select, names: Schema, selected: seq<Row>)
    requires stmt.items == [] || IsStar(stmt.items)
    ensures true <==> HandsOut(ev, stmt, names, selected, Cut(stmt, selected))
  {
    CutAt(stmt, selected);
  }

  lemma ItemsHandOut(ev: Evaluator, stmt: Select, names: Schema, selected: seq<Row>)
    requires stmt.items != [] && !IsStar(stmt.items)
    ensures true <==> HandsOut(ev, stmt, names, selected, Cut(stmt, ProjectAll(ev, stmt.items, names, selected)))
  {
    var projected := ProjectAll(ev, stmt.items, names, selected);
    CutAt(stmt, projected);
    var start := if stmt.limit < 0 || stmt.offset < 0 then 0 else stmt.offset;
    forall j {:trigger Cut(stmt, projected)[j]} | 0 <= j < |Cut(stmt, projected)|
      ensures Cut(stmt, projected)[j] == ProjectRow(ev, stmt.items, names, selected[start + j])
    {
    }
  }

  lemma ClausesHandOut(ev: Evaluator, stmt: Select, schema: Schema, rows: seq<Row>)
    ensures true <==> HandsOut(ev, stmt, if Aggregated(stmt) then NO_SCHEMA else schema, SelectedRows(ev, stmt, schema, rows),
                               ClausesMean(ev, stmt, schema, rows))
  {
    ClausesAre(ev, stmt, schema, rows);
    if stmt.items == [] || IsStar(stmt.items) {
      StarHandsOut(ev, stmt, if Aggregated(stmt) then NO_SCHEMA else schema, SelectedRows(ev, stmt, schema, rows));
    } else {
      ItemsHandOut(ev, stmt, if Aggregated(stmt) then NO_SCHEMA else schema, SelectedRows(ev, stmt, schema, rows));
    }
  }

  /** What the SELECT means. */
  function Meaning(db: Database, ev: Evaluator, stmt: Select): seq<Row>
    requires Answerable(db, stmt)
  {
    ClausesMean(ev, stmt, SourceSchema(db, stmt.from[0], Sources(stmt)),
                SourceRows(db, ev, stmt.from[0], Sources(stmt)))
  }

  /** The rows a SELECT hands out, number by number and column by column. */
  ghost predicate Answers(db: Database, ev: Evaluator, stmt: Select, result: seq<Row>)
    requires Answerable(db, stmt)
  {
    var schema, rows := SourceSchema(db, stmt.from[0], Sources(stmt)), SourceRows(db, ev, stmt.from[0], Sources(stmt));
    HandsOut(ev, stmt, if Aggregated(stmt) then NO_SCHEMA else schema, SelectedRows(ev, stmt, schema, rows), result)
  }

  lemma MeaningAnswers(db: Database, ev: Evaluator, stmt: Select)
    requires Answerable(db, stmt)
    ensures true <==> Answers(db, ev, stmt, Meaning(db, ev, stmt))
  {
    ClausesHandOut(ev, stmt, SourceSchema(db, stmt.from[0], Sources(stmt)),
                   SourceRows(db, ev, stmt.from[0], Sources(stmt)));
  }

  lemma {:induction false} LeftDeepMeans(db: Database, ev: Evaluator, first: string, sources: seq<Join>)
    requires first in db && Known(db, sources)
    ensures var p := Convert(LeftDeep(Scan(first), sources));
            && Buildable(db, p) && OutSchema(db, p) == SourceSchema(db, first, sources)
            && Rows(db, ev, p) == SourceRows(db, ev, first, sources)
    decreases |sources|
  {
    if sources != [] {
      LeftDeepMeans(db, ev, first, sources[..|sources| - 1]);
    }
  }

  /** Merged into the scan below it or not, a filter yields the rows of its input that pass. */
  lemma FilterMeans(db: Database, ev: Evaluator, e: Expr, source: Logical)
    requires Buildable(db, Convert(source))
    ensures var p, child := Convert(Filter(e, source)), Convert(source);
            && Buildable(db, p) && OutSchema(db, p) == OutSchema(db, child)
            && Rows(db, ev, p) == Where(ev, e, OutSchema(db, child), Rows(db, ev, child))
  {
    match source
    case Scan(table) =>
      assert Rows(db, ev, SeqScan(table, None)) == db[table].rows;
    case _ =>
      assert Convert(Filter(e, source)) == PFilter(e, Convert(source));
  }

  /** The plan, converted, has this output. */
  ghost predicate Yields(db: Database, ev: Evaluator, plan: Logical, schema: Schema, rows: seq<Row>) {
    var p := Convert(plan);
    Buildable(db, p) && OutSchema(db, p) == schema && Rows(db, ev, p) == rows
  }

  lemma FilteredMeans(db: Database, ev: Evaluator, pred: Option<Expr>, source: Logical, schema: Schema, rows: seq<Row>)
    requires Yields(db, ev, source, schema, rows)
    ensures Yields(db, ev, FilteredBy(pred, source), schema, WhereIf(ev, pred, schema, rows))
  {
    if pred.Some? {
      FilterMeans(db, ev, pred.value, source);
    }
  }

  lemma GroupedMeans(db: Database, ev: Evaluator, stmt: Select, source: Logical, schema: Schema, rows: seq<Row>)
    requires Yields(db, ev, source, schema, rows)
    ensures if Aggregated(stmt)
            then Yields(db, ev, Grouped(stmt, source), NO_SCHEMA, AggregateRows(ev, stmt.groupBy, Calls(stmt.items), schema, rows))
            else Yields(db, ev, Grouped(stmt, source), schema, rows)
  {
  }

  lemma ProjectedMeans(db: Database, ev: Evaluator, stmt: Select, source: Logical, schema: Schema, rows: seq<Row>)
    requires Yields(db, ev, source, schema, rows)
    ensures var p := Convert(Projected(stmt, source));
            && Buildable(db, p)
            && Rows(db, ev, p) == if stmt.items == [] || IsStar(stmt.items) then rows
                                  else ProjectAll(ev, stmt.items, schema, rows)
  {
  }

  lemma LimitedMeans(db: Database, ev: Evaluator, stmt: Select, source: Logical)
    requires Buildable(db, Convert(source))
    ensures var p := Convert(Limited(stmt, source));
            Buildable(db, p) && Rows(db, ev, p) == Cut(stmt, Rows(db, ev, Convert(source)))
  {
  }

  /** The plan on top of any source yields what the clauses make of the source's rows. */
  lemma TopMeans(db: Database, ev: Evaluator, stmt: Select, source: Logical, schema: Schema, rows: seq<Row>)
    requires Yields(db, ev, source, schema, rows)
    ensures var p := Convert(Top(stmt, source));
            Buildable(db, p) && Rows(db, ev, p) == ClausesMean(ev, stmt, schema, rows)
  {
    var plan1, rows1 := FilteredBy(stmt.filter, source), WhereIf(ev, stmt.filter, schema, rows);
    FilteredMeans(db, ev, stmt.filter, source, schema, rows);
    GroupedMeans(db, ev, stmt, plan1, schema, rows1);
    var plan2 := Grouped(stmt, plan1);
    var schema2 := if Aggregated(stmt) then NO_SCHEMA else schema;
    var rows2 := if Aggregated(stmt) then AggregateRows(ev, stmt.groupBy, Calls(stmt.items), schema, rows1) else rows1;
    HavingMeans(db, ev, stmt, plan2, schema2, rows2);
  }

  lemma HavingMeans(db: Database, ev: Evaluator, stmt: Select, source: Logical, schema: Schema, rows: seq<Row>)
    requires Yields(db, ev, source, schema, rows)
    ensures var p := Convert(Limited(stmt, Projected(stmt, FilteredBy(stmt.having, source))));
            && Buildable(db, p)
            && var having := WhereIf(ev, stmt.having, schema, rows);
               Rows(db, ev, p) == Cut(stmt, if stmt.items == [] || IsStar(stmt.items) then having
                                            else ProjectAll(ev, stmt.items, schema, having))
  {
    FilteredMeans(db, ev, stmt.having, source, schema, rows);
    ProjectedMeans(db, ev, stmt, FilteredBy(stmt.having, source), schema, WhereIf(ev, stmt.having, schema, rows));
    LimitedMeans(db, ev, stmt, Projected(stmt, FilteredBy(stmt.having, source)));
  }

  /** The converted plan of a SELECT yields what the SELECT means. */
  lemma PlanMeans(db: Database, ev: Evaluator, stmt: Select)
    requires Answerable(db, stmt)
    ensures LogicalOf(db, stmt).Some?
    ensures var p := Convert(LogicalOf(db, stmt).value);
            Buildable(db, p) && Rows(db, ev, p) == Meaning(db, ev, stmt)
  {
    LeftDeepMeans(db, ev, stmt.from[0], Sources(stmt));
    TopMeans(db, ev, stmt, LeftDeep(Scan(stmt.from[0]), Sources(stmt)), SourceSchema(db, stmt.from[0], Sources(stmt)),
             SourceRows(db, ev, stmt.from[0], Sources(stmt)));
  }

  lemma FilterNotBuilt(db: Database, pred: Option<Expr>, source: Logical)
    requires !Buildable(db, Convert(source))
    ensures !Buildable(db, Convert(FilteredBy(pred, source)))
  {
    if pred.Some? && !source.Scan? {
      assert Convert(Filter(pred.value, source)) == PFilter(pred.value, Convert(source));
    }
  }

  lemma NotBuilt(db: Database, stmt: Select, source: Logical)
    requires !Buildable(db, Convert(source))
    ensures !Buildable(db, Convert(Top(stmt, source)))
  {
    FilterNotBuilt(db, stmt.filter, source);
    var grouped := Grouped(stmt, FilteredBy(stmt.filter, source));
    FilterNotBuilt(db, stmt.having, grouped);
    assert !Buildable(db, Convert(Projected(stmt, FilteredBy(stmt.having, grouped))));
  }

  function AnyEvaluator(): Evaluator {
    Evaluator((_, _, _) => true, (_, _, _) => LNull, (_, _) => true, (_, _) => 0, (v, _) => v, (v, _) => v)
  }

  /** A statement no plan is built for, or one whose plan cannot be built, is not answerable. */
  lemma BuiltIff(db: Database, stmt: Select)
    requires "" !in db
    ensures (LogicalOf(db, stmt).Some? && Buildable(db, Convert(LogicalOf(db, stmt).value))) <==> Answerable(db, stmt)
  {
    if Answerable(db, stmt) {
      PlanMeans(db, AnyEvaluator(), stmt);
    } else if stmt.from == [] {
      NotBuilt(db, stmt, Scan(""));
    }
  }

  // ---------------------------------------------------------------------------------------------
  // What the nested product holds

  /** One row of each table. */
  function Glued(picks: seq<Row>): Row {
    if picks == [] then [] else Glued(picks[..|picks| - 1]) + picks[|picks| - 1]
  }

  /** `picks` has a row of the first table and of each source, and each join condition holds of the rows up to its
      table. */
  ghost predicate Picks(db: Database, ev: Evaluator, first: string, sources: seq<Join>, picks: seq<Row>)
    requires first in db && Known(db, sources)
  {
    && |picks| == |sources| + 1
    && if sources == [] then picks[0] in db[first].rows
       else
         var n := |sources| - 1;
         && Picks(db, ev, first, sources[..n], picks[..n + 1])
         && picks[n + 1] in db[sources[n].table].rows
         && (sources[n].condition.Some? ==>
               ev.holds(sources[n].condition.value, Glued(picks), SourceSchema(db, first, sources)))
  }

  /** The table of pick `k`. */
  function TableOf(db: Database, first: string, sources: seq<Join>, k: nat): Table
    requires first in db && Known(db, sources) && k <= |sources|
  {
    if k == 0 then db[first] else db[sources[k - 1].table]
  }

  function ColumnsBefore(db: Database, first: string, sources: seq<Join>, k: nat): nat
    requires first in db && Known(db, sources) && k <= |sources| + 1
  {
    if k == 0 then 0 else ColumnsBefore(db, first, sources, k - 1) + |TableOf(db, first, sources, k - 1).schema|
  }

  lemma {:induction false} ColumnsBeforeSame(db: Database, first: string, sources: seq<Join>, k: nat)
    requires first in db && Known(db, sources) && sources != [] && k <= |sources|
    ensures ColumnsBefore(db, first, sources[..|sources| - 1], k) == ColumnsBefore(db, first, sources, k)
  {
    if k > 0 {
      ColumnsBeforeSame(db, first, sources, k - 1);
    }
  }

  /** A name and its value stand at the same place: behind all columns of the earlier tables. */
  lemma {:induction false} ColumnsLine(db: Database, first: string, sources: seq<Join>, picks: seq<Row>, k: nat, c: nat)
    requires first in db && Known(db, sources) && |picks| == |sources| + 1
    requires forall t: nat {:trigger picks[t]} :: t < |picks| ==> |picks[t]| == |TableOf(db, first, sources, t).schema|
    requires k < |picks| && c < |picks[k]|
    ensures var at, schema := ColumnsBefore(db, first, sources, k) + c, SourceSchema(db, first, sources);
            && at < |schema| == |Glued(picks)| == ColumnsBefore(db, first, sources, |picks|)
            && schema[at] == TableOf(db, first, sources, k).schema[c] && Glued(picks)[at] == picks[k][c]
    decreases |sources|
  {
    var n := |picks| - 1;
    if sources == [] {
      assert picks[..0] == [];
    } else {
      var front, before := sources[..n - 1], picks[..n];
      forall t: nat {:trigger before[t]} | t < n ensures |before[t]| == |TableOf(db, first, front, t).schema| {
        assert before[t] == picks[t];
      }
      ColumnsBeforeSame(db, first, sources, n);
      if k < n {
        ColumnsLine(db, first, front, before, k, c);
        ColumnsBeforeSame(db, first, sources, k);
      } else {
        FrontLines(db, first, front, before);
      }
    }
  }

  lemma {:induction false} FrontLines(db: Database, first: string, sources: seq<Join>, picks: seq<Row>)
    requires first in db && Known(db, sources) && |picks| == |sources| + 1
    requires forall t: nat {:trigger picks[t]} :: t < |picks| ==> |picks[t]| == |TableOf(db, first, sources, t).schema|
    ensures |SourceSchema(db, first, sources)| == |Glued(picks)| == ColumnsBefore(db, first, sources, |picks|)
    decreases |sources|
  {
    var n := |picks| - 1;
    if sources == [] {
      assert picks[..0] == [];
    } else {
      var front, before := sources[..n - 1], picks[..n];
      forall t: nat {:trigger before[t]} | t < n ensures |before[t]| == |TableOf(db, first, front, t).schema| {
        assert before[t] == picks[t];
      }
      ColumnsBeforeSame(db, first, sources, n);
      FrontLines(db, first, front, before);
    }
  }

  lemma {:induction false} InWhere(ev: Evaluator, e: Expr, schema: Schema, rows: seq<Row>, r: Row)
    ensures r in Where(ev, e, schema, rows) <==> r in rows && ev.holds(e, r, schema)
  {
    if rows != [] {
      InWhere(ev, e, schema, rows[1..], r);
      assert rows == [rows[0]] + rows[1..];
    }
  }

  lemma {:induction false} InProduct(left: seq<Row>, right: seq<Row>, r: Row)
    ensures r in Product(left, right) <==> exists l, q :: l in left && q in right && r == l + q
  {
    if left != [] {
      InProduct(left[1..], right, r);
      assert left == [left[0]] + left[1..];
      if l, q :| l in left && q in right && r == l + q {
        if l == left[0] {
          var k :| 0 <= k < |right| && right[k] == q;
          assert Prefixed(left[0], right)[k] == r;
        }
      }
    }
  }

  /** The rows of the last step of the product. */
  lemma InLastStep(db: Database, ev: Evaluator, first: string, sources: seq<Join>, r: Row)
    requires first in db && Known(db, sources) && sources != []
    ensures var n := |sources| - 1;
            r in SourceRows(db, ev, first, sources) <==>
              && (exists l, q :: l in SourceRows(db, ev, first, sources[..n]) && q in db[sources[n].table].rows && r == l + q)
              && (sources[n].condition.Some? ==>
                    ev.holds(sources[n].condition.value, r, SourceSchema(db, first, sources)))
  {
    var s := sources[|sources| - 1];
    var before := SourceRows(db, ev, first, sources[..|sources| - 1]);
    if s.condition.Some? {
      InWhere(ev, s.condition.value, SourceSchema(db, first, sources), Product(before, db[s.table].rows), r);
    }
    InProduct(before, db[s.table].rows, r);
  }

  lemma OnePickMore(db: Database, ev: Evaluator, first: string, sources: seq<Join>, picks: seq<Row>, q: Row)
    requires first in db && Known(db, sources) && sources != [] && Picks(db, ev, first, sources[..|sources| - 1], picks)
    ensures Glued(picks + [q]) == Glued(picks) + q
    ensures var s := sources[|sources| - 1];
            Picks(db, ev, first, sources, picks + [q]) <==>
              && q in db[s.table].rows
              && (s.condition.Some? ==> ev.holds(s.condition.value, Glued(picks) + q, SourceSchema(db, first, sources)))
  {
    assert (picks + [q])[..|sources|] == picks;
  }

  lemma {:induction false} PickedFrom(db: Database, ev: Evaluator, first: string, sources: seq<Join>, r: Row)
    returns (picks: seq<Row>)
    requires first in db && Known(db, sources) && r in SourceRows(db, ev, first, sources)
    ensures Picks(db, ev, first, sources, picks) && r == Glued(picks)
    decreases |sources|
  {
    if sources == [] {
      picks := [r];
      assert Glued([]) + r == r;
    } else {
      var n := |sources| - 1;
      InLastStep(db, ev, first, sources, r);
      var l, q :| l in SourceRows(db, ev, first, sources[..n]) && q in db[sources[n].table].rows && r == l + q;
      var front := PickedFrom(db, ev, first, sources[..n], l);
      OnePickMore(db, ev, first, sources, front, q);
      picks := front + [q];
    }
  }

  lemma FrontPicks(db: Database, ev: Evaluator, first: string, sources: seq<Join>, picks: seq<Row>)
    requires first in db && Known(db, sources) && sources != [] && Picks(db, ev, first, sources, picks)
    ensures Picks(db, ev, first, sources[..|sources| - 1], picks[..|sources|])
    ensures |picks| == |sources| + 1 && picks == picks[..|sources|] + [picks[|sources|]]
  {
  }

  lemma {:induction false} PicksAreRows(db: Database, ev: Evaluator, first: string, sources: seq<Join>, picks: seq<Row>)
    requires first in db && Known(db, sources) && Picks(db, ev, first, sources, picks)
    ensures Glued(picks) in SourceRows(db, ev, first, sources)
    decreases |sources|
  {
    if sources == [] {
      assert Glued(picks) == [] + picks[0] == picks[0];
    } else {
      var n := |sources| - 1;
      FrontPicks(db, ev, first, sources, picks);
      PicksAreRows(db, ev, first, sources[..n], picks[..n + 1]);
      OnePickMore(db, ev, first, sources, picks[..n + 1], picks[n + 1]);
      InLastStep(db, ev, first, sources, Glued(picks));
    }
  }

  /** The FROM and JOIN clauses mean every way to pick one row of each table such that the join conditions hold. */
  lemma SourceRowsExact(db: Database, ev: Evaluator, first: string, sources: seq<Join>, r: Row)
    requires first in db && Known(db, sources)
    ensures r in SourceRows(db, ev, first, sources) <==>
            exists picks :: Picks(db, ev, first, sources, picks) && r == Glued(picks)
  {
    if r in SourceRows(db, ev, first, sources) {
      var picks := PickedFrom(db, ev, first, sources, r);
    }
    if picks :| Picks(db, ev, first, sources, picks) && r == Glued(picks) {
      PicksAreRows(db, ev, first, sources, picks);
    }
  }
}
