/** Tables as the executors see them: the rows that src/storage/tuple.c reads from the tuples of a heap, pulled by the
    sequential scan of src/executor/seq_scan_executor.c. */
module HeapTables {
  import opened Wrappers
  import opened Sequences
  import opened PageBytes
  import opened ExpressionGrammar
  import opened QueryPlan
  import opened Aggregation
  import opened QuerySemantics
  import E = Executors
  import C = TupleCodec
  import L = SchemaLayout
  import H = BpmHeap
  import S = HeapScan
  import P = SlottedPage
  import D = DmlScan

  /** A table's heap, the layout of its rows and the names of its columns. */
  datatype HeapTable = HeapTable(heap: H.BpmHeap, layout: L.Schema, names: Schema)

  type Catalog = map<string, HeapTable>

  function ValueOf(c: C.Cell): Value {
    match c
    case Nothing => LNull
    case Integer(i) => LInt(i)
    case Double(bits) => LFloat(bits)
    case Boolean(b) => LBool(b)
    case Text(text) => LString(seq(|text|, i requires 0 <= i < |text| => text[i] as char))
  }

  /** The row in a tuple, if it can be read. */
  function RowOf(layout: L.Schema, data: Bytes): Option<Row>
    requires L.Built(layout)
  {
    if |data| < layout.bitmapSize + layout.fixedSize then None
    else match C.Decode(layout, data)
      case Ok(cells) => Some(seq(|cells|, i requires 0 <= i < |cells| => ValueOf(cells[i])))
      case Err(_) => None
  }

  /** The value is what the cell holds. */
  ghost predicate SameContent(c: C.Cell, v: Value) {
    match c
    case Nothing => v == LNull
    case Integer(i) => v == LInt(i)
    case Double(bits) => v == LFloat(bits)
    case Boolean(b) => v == LBool(b)
    case Text(text) => v.LString? && |v.s| == |text| && forall i {:trigger v.s[i]} :: 0 <= i < |text| ==> v.s[i] as int == text[i]
  }

  /** A tuple that encodes a row is read as that row, column by column. */
  lemma StoredRow(layout: L.Schema, cells: seq<C.Cell>, data: Bytes)
    requires L.Built(layout) && C.Conforms(layout, cells) && C.Encodes(layout, cells, data)
    ensures RowOf(layout, data).Some? && |RowOf(layout, data).value| == |cells|
    ensures forall i {:trigger cells[i]} :: 0 <= i < |cells| ==> SameContent(cells[i], RowOf(layout, data).value[i])
  {
    C.DecodeEncoded(layout, cells, data, 0);
    assert cells[0..] == cells;
  }

  /** UPDATE: a row whose rewriting gave an image of new cells, which finds room, is read as these cells from then on. */
  lemma UpdatedRowReads(layout: L.Schema, pass: Bytes -> bool, rewrite: Bytes -> D.Image, pages: seq<P.Page>, k: nat, s: nat,
                        cells: seq<C.Cell>)
    requires L.Built(layout) && C.Conforms(layout, cells) && D.Shaped(pages) && k < |pages| && H.TupleAt(pages, k, s).Some?
    requires var was := H.TupleAt(pages, k, s).value;
             && P.Live(pages[k], s) && pass(was) && !D.FailsUpTo(pass, rewrite, pages, k, s) && rewrite(was).Image?
             && C.Encodes(layout, cells, rewrite(was).data) && 0 < |rewrite(was).data| < 0x1_0000
             && D.FindsRoom(D.Update(pass, rewrite), pages, k, s, |rewrite(was).data|)
    ensures var now := H.TupleAt(D.Sweep(D.Update(pass, rewrite), pages, 0, 0).pages, k, s);
            && now.Some? && RowOf(layout, now.value).Some? && |RowOf(layout, now.value).value| == |cells|
            && forall i {:trigger cells[i]} :: 0 <= i < |cells| ==> SameContent(cells[i], RowOf(layout, now.value).value[i])
  {
    D.UpdatedRow(pass, rewrite, pages, k, s);
    StoredRow(layout, cells, rewrite(H.TupleAt(pages, k, s).value).data);
  }

  ghost function Decoded(layout: L.Schema, tuples: seq<H.Row>): seq<Row>
    requires L.Built(layout)
  {
    if tuples == [] then []
    else
      var row := RowOf(layout, tuples[0].data);
      (if row.Some? then [row.value] else []) + Decoded(layout, tuples[1..])
  }

  /** The tuples that the scan lets through: those that can be read and pass the predicate. */
  function Passes(layout: L.Schema, names: Schema, ev: Evaluator, pred: Option<Expr>, data: Bytes): bool
    requires L.Built(layout)
  {
    var row := RowOf(layout, data);
    row.Some? && (pred.Some? ==> ev.holds(pred.value, row.value, names))
  }

  ghost function Selected(layout: L.Schema, names: Schema, ev: Evaluator, pred: Option<Expr>, tuples: seq<H.Row>): seq<Row>
    requires L.Built(layout)
  {
    WhereIf(ev, pred, names, Decoded(layout, tuples))
  }

  lemma SelectedStep(layout: L.Schema, names: Schema, ev: Evaluator, pred: Option<Expr>, x: H.Row, tail: seq<H.Row>)
    requires L.Built(layout)
    ensures Selected(layout, names, ev, pred, [x] + tail) ==
            (if Passes(layout, names, ev, pred, x.data) then [RowOf(layout, x.data).value] else [])
            + Selected(layout, names, ev, pred, tail)
  {
    assert ([x] + tail)[1..] == tail;
    var row := RowOf(layout, x.data);
    if row.Some? {
      var rows := Decoded(layout, tail);
      assert ([row.value] + rows)[1..] == rows;
    } else {
      assert Decoded(layout, [x] + tail) == Decoded(layout, tail);
    }
  }

  /** What the scan passes over is not selected. */
  lemma {:induction false} SkipsUnselected(t: HeapTable, ev: Evaluator, pred: Option<Expr>, pass: Bytes -> bool,
                                           chain: seq<H.PageId>, pages: seq<P.Page>, k0: nat, s0: nat, k1: nat, s1: nat)
    requires L.Built(t.layout) && |chain| == |pages| && S.Skips(pass, pages, k0, s0, k1, s1)
    requires forall data {:trigger pass(data)} :: pass(data) == Passes(t.layout, t.names, ev, pred, data)
    ensures Selected(t.layout, t.names, ev, pred, H.Ahead(chain, pages, k0, s0)) ==
            Selected(t.layout, t.names, ev, pred, H.Ahead(chain, pages, k1, s1))
    decreases |pages| - k0, if k0 < |pages| then |pages[k0].tuples| - s0 else 0
  {
    if k0 != k1 || s0 != s1 {
      if s0 >= |pages[k0].tuples| {
        SkipsUnselected(t, ev, pred, pass, chain, pages, k0 + 1, 0, k1, s1);
      } else {
        SkipsUnselected(t, ev, pred, pass, chain, pages, k0, s0 + 1, k1, s1);
        if pages[k0].tuples[s0].Some? {
          var x := H.Row(H.Rid(chain[k0], s0), pages[k0].tuples[s0].value);
          SelectedStep(t.layout, t.names, ev, pred, x, H.Ahead(chain, pages, k0, s0 + 1));
          assert !pass(x.data);
        }
      }
    }
  }

  /** The step to the first tuple that passes. */
  lemma PassingSelected(t: HeapTable, ev: Evaluator, pred: Option<Expr>, pass: Bytes -> bool,
                        chain: seq<H.PageId>, pages: seq<P.Page>, k0: nat, s0: nat, k1: nat, s1: nat, data: Bytes)
    requires L.Built(t.layout) && |chain| == |pages| && S.FoundPassing(pass, pages, k0, s0, k1, s1, data)
    requires forall data {:trigger pass(data)} :: pass(data) == Passes(t.layout, t.names, ev, pred, data)
    ensures RowOf(t.layout, data).Some?
    ensures Selected(t.layout, t.names, ev, pred, H.Ahead(chain, pages, k0, s0)) ==
            [RowOf(t.layout, data).value] + Selected(t.layout, t.names, ev, pred, H.Ahead(chain, pages, k1, s1 + 1))
  {
    SkipsUnselected(t, ev, pred, pass, chain, pages, k0, s0, k1, s1);
    assert pass(data);
    SelectedStep(t.layout, t.names, ev, pred, H.Row(H.Rid(chain[k1], s1), data), H.Ahead(chain, pages, k1, s1 + 1));
  }

  /** Every live tuple in the order of pages and slots, as far as it can be read. */
  ghost function TableRows(t: HeapTable): seq<Row>
    reads t.heap
  {
    if L.Built(t.layout) && |t.heap.chain| == |t.heap.pages|
    then Decoded(t.layout, H.Ahead(t.heap.chain, t.heap.pages, 0, 0))
    else []
  }

  /** Every live tuple has the bitmap and the fixed area, as all that were serialised have. */
  ghost predicate LongEnough(layout: L.Schema, pages: seq<P.Page>) {
    forall k, s {:trigger H.TupleAt(pages, k, s)} :: H.TupleAt(pages, k, s).Some? ==>
      layout.bitmapSize + layout.fixedSize <= |H.TupleAt(pages, k, s).value|
  }

  ghost predicate Readable(t: HeapTable)
    reads t.heap, t.heap.frames.Values
  {
    t.heap.Valid() && L.Built(t.layout) && LongEnough(t.layout, t.heap.pages)
  }

  /** A scan over the table's heap with the table's reading of tuples as its test. */
  class TableScan {
    const table: HeapTable
    const ev: Evaluator
    const pred: Option<Expr>
    const scan: S.SeqScan

    ghost predicate Valid()
      reads scan.iter, table.heap, table.heap.frames.Values
    {
      true <==> Scans()
    }

    // Kept apart from Valid so that the solver does not take it to pieces at every call.
    ghost predicate Scans()
      reads scan.iter, table.heap, table.heap.frames.Values
    {
      && Readable(table) && scan.iter.heap == table.heap && scan.iter.Valid()
      && forall data {:trigger scan.pass(data)} :: scan.pass(data) == Passes(table.layout, table.names, ev, pred, data)
    }

    /** The rows still to come. */
    ghost function Left(): seq<Row>
      requires Valid()
      reads scan.iter, table.heap, table.heap.frames.Values
    {
      Selected(table.layout, table.names, ev, pred,
               H.Ahead(table.heap.chain, table.heap.pages, scan.iter.at, scan.iter.Slot()))
    }

    constructor (table: HeapTable, ev: Evaluator, pred: Option<Expr>)
      requires Readable(table)
      ensures Valid() && fresh(scan.iter) && this.table == table
      ensures Left() == WhereIf(ev, pred, table.names, TableRows(table))
    {
      this.table, this.ev, this.pred := table, ev, pred;
      scan := new S.SeqScan(table.heap, data => Passes(table.layout, table.names, ev, pred, data));
    }

    /** seq_scan_next with the tuple read. */
    method Next() returns (found: bool, row: Row)
      requires Valid()
      modifies scan.iter
      ensures Valid() && (found <==> old(Left()) != [])
      ensures found ==> old(Left()) == [row] + Left()
    {
      ghost var chain, pages := table.heap.chain, table.heap.pages;
      ghost var k0, s0 := scan.iter.at, scan.iter.Slot();
      var rc, rid, data := scan.Next();
      if rc != P.DB_OK {
        SkipsUnselected(table, ev, pred, scan.pass, chain, pages, k0, s0, scan.iter.at, 0);
        return false, [];
      }
      PassingSelected(table, ev, pred, scan.pass, chain, pages, k0, s0, scan.iter.at, rid.slot, data);
      found, row := true, RowOf(table.layout, data).value;
    }

    /** The drain loop. */
    method TakeRest() returns (rows: seq<Row>)
      requires Valid()
      modifies scan.iter
      ensures rows == old(Left())
    {
      rows := [];
      ghost var left := Left();
      while true
        invariant Valid() && Left() == left && rows + left == old(Left())
        decreases |left|
      {
        var found, row := Next();
        if !found {
          return;
        }
        left := Left();
        OneTaken(rows, row, left);
        rows := rows + [row];
      }
    }
  }

  /** The drained sequential scan over the heap yields the rows that can be read from it and pass. */
  method ScanTable(t: HeapTable, ev: Evaluator, pred: Option<Expr>) returns (rows: seq<Row>)
    requires Readable(t)
    ensures rows == WhereIf(ev, pred, t.names, TableRows(t))
  {
    var scan := new TableScan(t, ev, pred);
    rows := scan.TakeRest();
  }

  /** The database that the heaps of the catalog's tables hold. */
  ghost function DatabaseOf(catalog: Catalog): Database
    reads set name | name in catalog :: catalog[name].heap
  {
    map name | name in catalog :: Table(catalog[name].names, TableRows(catalog[name]))
  }

  ghost predicate LoadedUpTo(all: Database, db: Database, todo: set<string>) {
    db.Keys == all.Keys - todo && forall name {:trigger db[name]} :: name in db ==> db[name] == all[name]
  }

  lemma OneLoaded(all: Database, db: Database, todo: set<string>, name: string, table: Table)
    requires LoadedUpTo(all, db, todo) && name in todo && name in all && table == all[name]
    ensures LoadedUpTo(all, db[name := table], todo - {name})
  {
  }

  lemma AllLoaded(all: Database, db: Database)
    requires LoadedUpTo(all, db, {})
    ensures db == all
  {
    assert forall name :: name in db ==> db[name] == all[name];
  }

  method LoadTable(t: HeapTable, ev: Evaluator) returns (table: Table)
    requires Readable(t)
    ensures table == Table(t.names, TableRows(t))
  {
    var rows := ScanTable(t, ev, None);
    table := Table(t.names, rows);
  }

  /** One more table is read through its sequential scan. */
  method LoadNext(catalog: Catalog, ev: Evaluator, ghost all: Database, db: Database, todo: set<string>)
    returns (more: Database, left: set<string>)
    requires forall name {:trigger catalog[name]} :: name in catalog ==> Readable(catalog[name])
    requires all == DatabaseOf(catalog) && LoadedUpTo(all, db, todo) && todo <= catalog.Keys && todo != {}
    ensures LoadedUpTo(all, more, left) && left < todo
  {
    var name :| name in todo;
    var table := LoadTable(catalog[name], ev);
    OneLoaded(all, db, todo, name, table);
    more, left := db[name := table], todo - {name};
  }

  method Load(catalog: Catalog, ev: Evaluator) returns (db: Database)
    requires forall name {:trigger catalog[name]} :: name in catalog ==> Readable(catalog[name])
    ensures db == DatabaseOf(catalog)
  {
    ghost var all := DatabaseOf(catalog);
    db := map[];
    var todo := catalog.Keys;
    while todo != {}
      invariant todo <= catalog.Keys && LoadedUpTo(all, db, todo) && all == DatabaseOf(catalog)
      decreases todo
    {
      db, todo := LoadNext(catalog, ev, all, db, todo);
    }
    AllLoaded(all, db);
  }

  /** A SELECT over heaps returns what it means over the rows that can be read from them. */
  method ExecuteSelect(catalog: Catalog, ev: Evaluator, stmt: Select) returns (result: Option<seq<Row>>)
    requires "" !in catalog
    requires forall name {:trigger catalog[name]} :: name in catalog ==> Readable(catalog[name])
    ensures result == if Answerable(DatabaseOf(catalog), stmt) then Some(Meaning(DatabaseOf(catalog), ev, stmt)) else None
    ensures Answerable(DatabaseOf(catalog), stmt) ==>
              result.Some? && (true <==> Answers(DatabaseOf(catalog), ev, stmt, result.value))
  {
    ghost var all := DatabaseOf(catalog);
    var db := Load(catalog, ev);
    assert db == all;
    result := E.ExecuteSelect(db, ev, stmt);
    assert DatabaseOf(catalog) == all;
    if Answerable(all, stmt) {
      MeaningAnswers(all, ev, stmt);
    }
  }
}
