/** The UPDATE and DELETE executors (src/executor/update_executor.c, src/executor/delete_executor.c) and the
    loop that drains them (src/executor/execution_engine.c). */
module DmlExecutors {
  import opened Wrappers
  import opened PageBytes
  import opened SlottedPage
  import opened DmlScan
  import H = BpmHeap
  import S = HeapScan

  lemma {:induction false} SkipsSweep(stmt: Statement, pages: seq<Page>, k0: nat, s0: nat, k1: nat, s1: nat)
    requires S.Skips(stmt.pass, pages, k0, s0, k1, s1)
    ensures Sweep(stmt, pages, k0, s0) == Sweep(stmt, pages, k1, s1)
    decreases |pages| - k0, if k0 < |pages| then |pages[k0].tuples| - s0 else 0
  {
    if k0 != k1 || s0 != s1 {
      if s0 >= |pages[k0].tuples| {
        SkipsSweep(stmt, pages, k0 + 1, 0, k1, s1);
      } else {
        assert !Matches(stmt, pages[k0], s0);
        assert pages[k0 := Visit(stmt, pages[k0], s0)] == pages;
        SkipsSweep(stmt, pages, k0, s0 + 1, k1, s1);
      }
    }
  }

  ghost function OneMore(r: Swept): Swept { r.(affected := r.affected + 1) }

  /** The rest of the scan after a row was found and dealt with. */
  lemma RowSwept(stmt: Statement, pages: seq<Page>, k0: nat, s0: nat, k: nat, s: nat, data: Bytes, after: seq<Page>,
                 affected: bool)
    requires S.FoundPassing(stmt.pass, pages, k0, s0, k, s, data)
    requires k < |pages| && !Failing(stmt, pages[k], s) && Visited(stmt, pages, k, s, after, affected)
    ensures Sweep(stmt, pages, k0, s0) ==
            if affected then OneMore(Sweep(stmt, after, k, s + 1)) else Sweep(stmt, after, k, s + 1)
  {
    SkipsSweep(stmt, pages, k0, s0, k, s);
  }

  ghost predicate Visited(stmt: Statement, pages: seq<Page>, k: nat, s: nat, after: seq<Page>, affected: bool)
    requires k < |pages|
  {
    after == pages[k := Visit(stmt, pages[k], s)] && affected == Affects(stmt, pages[k], s)
  }

  lemma RowFails(stmt: Statement, pages: seq<Page>, k0: nat, s0: nat, k: nat, s: nat, data: Bytes)
    requires S.FoundPassing(stmt.pass, pages, k0, s0, k, s, data)
    requires k < |pages| && Failing(stmt, pages[k], s)
    ensures Sweep(stmt, pages, k0, s0) == Swept(pages, 0, stmt.rewrite(data).rc)
  {
    SkipsSweep(stmt, pages, k0, s0, k, s);
  }

  lemma NothingLeft(stmt: Statement, pages: seq<Page>, k0: nat, s0: nat, k: nat)
    requires S.Skips(stmt.pass, pages, k0, s0, k, 0) && k >= |pages|
    ensures Sweep(stmt, pages, k0, s0) == Swept(pages, 0, DB_PAGE_NOT_FOUND)
  {
    SkipsSweep(stmt, pages, k0, s0, k, 0);
  }

  lemma PlaceIs(chain: seq<H.PageId>, k: nat)
    requires H.Distinct(chain) && k < |chain|
    ensures H.Place(chain, chain[k]) == k
  {
  }

  /** Deleting the row that was found. */
  method RemoveFound(heap: H.BpmHeap, rid: H.Rid, ghost stmt: Statement, ghost k: nat) returns (rc: int)
    requires heap.Valid() && stmt.Delete? && k < |heap.chain| && rid.page == heap.chain[k]
    requires rid.slot >= 0 && Matches(stmt, heap.pages[k], rid.slot)
    modifies heap`pages, heap.frames.Values
    ensures heap.Valid() && rc == DB_OK && Visited(stmt, old(heap.pages), k, rid.slot, heap.pages, true)
  {
    PlaceIs(heap.chain, k);
    rc := heap.Delete(rid);
  }

  /** Rewriting it. */
  method RewriteFound(heap: H.BpmHeap, rid: H.Rid, image: Bytes, ghost stmt: Statement, ghost k: nat) returns (rc: int)
    requires heap.Valid() && stmt.Update? && k < |heap.chain| && rid.page == heap.chain[k]
    requires rid.slot >= 0 && Matches(stmt, heap.pages[k], rid.slot) && !Failing(stmt, heap.pages[k], rid.slot)
    requires image == NewImage(stmt, heap.pages[k], rid.slot)
    modifies heap`pages, heap.frames.Values
    ensures heap.Valid() && Visited(stmt, old(heap.pages), k, rid.slot, heap.pages, rc == DB_OK)
  {
    PlaceIs(heap.chain, k);
    ghost var pages := heap.pages;
    rc := heap.Update(rid, image);
    assert pages[k := pages[k]] == pages;
  }

  lemma FoundMatches(stmt: Statement, pages: seq<Page>, k0: nat, s0: nat, k: nat, s: nat, data: Bytes)
    requires S.FoundPassing(stmt.pass, pages, k0, s0, k, s, data)
    requires k < |pages| && Live(pages[k], s) && |pages[k].slots| == |pages[k].tuples|
    ensures Matches(stmt, pages[k], s) && data == pages[k].tuples[s].value
  {
  }

  method DeleteRow(heap: H.BpmHeap, rid: H.Rid, row: Bytes, ghost stmt: Statement, ghost pages: seq<Page>,
                   ghost k0: nat, ghost s0: nat, ghost k: nat) returns (rc: int)
    requires heap.Valid() && heap.pages == pages && stmt.Delete? && rid.slot >= 0
    requires k < |heap.chain| && rid.page == heap.chain[k]
    requires S.FoundPassing(stmt.pass, pages, k0, s0, k, rid.slot, row)
    modifies heap`pages, heap.frames.Values
    ensures heap.Valid() && rc == DB_OK
    ensures Sweep(stmt, pages, k0, s0) == OneMore(Sweep(stmt, heap.pages, k, rid.slot + 1))
  {
    heap.RowIsLive(k, rid.slot);
    FoundMatches(stmt, pages, k0, s0, k, rid.slot, row);
    rc := RemoveFound(heap, rid, stmt, k);
    RowSwept(stmt, pages, k0, s0, k, rid.slot, row, heap.pages, true);
  }

  /** A row whose rewriting fails ends the scan, one whose new image finds no room is passed over. */
  method UpdateRow(heap: H.BpmHeap, rid: H.Rid, row: Bytes, image: Image, ghost stmt: Statement, ghost pages: seq<Page>,
                   ghost k0: nat, ghost s0: nat, ghost k: nat) returns (rc: int)
    requires heap.Valid() && heap.pages == pages && stmt.Update? && rid.slot >= 0
    requires k < |heap.chain| && rid.page == heap.chain[k]
    requires S.FoundPassing(stmt.pass, pages, k0, s0, k, rid.slot, row)
    requires image == stmt.rewrite(row) && image.Image?
    modifies heap`pages, heap.frames.Values
    ensures heap.Valid() && |heap.pages[k].tuples| == |pages[k].tuples|
    ensures rc == DB_OK ==> Sweep(stmt, pages, k0, s0) == OneMore(Sweep(stmt, heap.pages, k, rid.slot + 1))
    ensures rc != DB_OK ==> Sweep(stmt, pages, k0, s0) == Sweep(stmt, heap.pages, k, rid.slot + 1)
  {
    heap.RowIsLive(k, rid.slot);
    FoundMatches(stmt, pages, k0, s0, k, rid.slot, row);
    rc := RewriteFound(heap, rid, Truncated(image.data), stmt, k);
    RowSwept(stmt, pages, k0, s0, k, rid.slot, row, heap.pages, rc == DB_OK);
  }

  ghost function SlotsLeft(pages: seq<Page>, k: nat, s: nat): nat {
    if k < |pages| && s < |pages[k].tuples| then |pages[k].tuples| - s else 0
  }

  class DeleteExecutor {
    const child: S.SeqScan
    var done: bool

    ghost function Stmt(): Statement { Delete(child.pass) }

    /** What the rest of the scan makes of the heap. */
    ghost function Rest(): Swept
      reads child.iter, child.iter.heap
    {
      Sweep(Stmt(), child.iter.heap.pages, child.iter.at, child.iter.Slot())
    }

    ghost predicate Valid()
      reads this, child.iter, child.iter.heap, child.iter.heap.frames.Values
    {
      child.iter.heap.Valid() && child.iter.Valid() && (done ==> child.iter.at == |child.iter.heap.chain|)
    }

    constructor (child: S.SeqScan)
      requires child.iter.heap.Valid() && child.iter.Valid()
      ensures this.child == child && Valid() && !done
    {
      this.child, done := child, false;
    }

    /** delete_next.  The row just found is live, so deleting it succeeds and the loop around it runs once. */
    method Next() returns (rc: int, row: Bytes)
      requires Valid()
      modifies this, child.iter, child.iter.heap`pages, child.iter.heap.frames.Values
      ensures Valid()
      ensures rc == DB_OK ==> old(Rest()) == OneMore(Rest())
      ensures rc != DB_OK ==> old(Rest()) == Swept(child.iter.heap.pages, 0, rc)
    {
      if done {
        return DB_PAGE_NOT_FOUND, [];
      }
      ghost var pages, k0, s0 := child.iter.heap.pages, child.iter.at, child.iter.Slot();
      var rid;
      rc, rid, row := child.Next();
      if rc != DB_OK {
        NothingLeft(Stmt(), pages, k0, s0, child.iter.at);
        done := true;
        return DB_PAGE_NOT_FOUND, [];
      }
      rc := DeleteRow(child.iter.heap, rid, row, Stmt(), pages, k0, s0, child.iter.at);
    }
  }

  class UpdateExecutor {
    const child: S.SeqScan
    const rewrite: Bytes -> Image
    var done: bool

    ghost function Stmt(): Statement { Update(child.pass, rewrite) }

    ghost function Rest(): Swept
      reads child.iter, child.iter.heap
    {
      Sweep(Stmt(), child.iter.heap.pages, child.iter.at, child.iter.Slot())
    }

    ghost predicate Valid()
      reads this, child.iter, child.iter.heap, child.iter.heap.frames.Values
    {
      child.iter.heap.Valid() && child.iter.Valid() && (done ==> child.iter.at == |child.iter.heap.chain|)
    }

    constructor (child: S.SeqScan, rewrite: Bytes -> Image)
      requires child.iter.heap.Valid() && child.iter.Valid()
      ensures this.child == child && this.rewrite == rewrite && Valid() && !done
    {
      this.child, this.rewrite, done := child, rewrite, false;
    }

    /** How many pages and slots are still to be scanned. */
    ghost function Far(): int
      reads child.iter, child.iter.heap
    {
      |child.iter.heap.chain| - child.iter.at
    }

    ghost function Near(): nat
      reads child.iter, child.iter.heap
    {
      SlotsLeft(child.iter.heap.pages, child.iter.at, child.iter.Slot())
    }

    /** One row of the scan: `again` if its new image found no room. */
    method TryRow() returns (rc: int, row: Bytes, again: bool)
      requires Valid() && !done
      modifies child.iter, child.iter.heap`pages, child.iter.heap.frames.Values
      ensures child.iter.heap.Valid() && child.iter.Valid()
      ensures again ==> Far() < old(Far()) || (Far() == old(Far()) && Near() < old(Near()))
      ensures again ==> old(Rest()) == Rest()
      ensures !again && rc == DB_OK ==> old(Rest()) == OneMore(Rest())
      ensures !again && rc != DB_OK ==> old(Rest()) == Swept(child.iter.heap.pages, 0, rc)
    {
      ghost var pages, k0, s0 := child.iter.heap.pages, child.iter.at, child.iter.Slot();
      var rid;
      rc, rid, row := child.Next();
      again := false;
      if rc != DB_OK {
        NothingLeft(Stmt(), pages, k0, s0, child.iter.at);
        return;
      }
      var image := rewrite(row);
      if image.Fails? {
        child.iter.heap.RowIsLive(child.iter.at, rid.slot);
        RowFails(Stmt(), pages, k0, s0, child.iter.at, rid.slot, row);
        rc := image.rc;
        return;
      }
      rc := UpdateRow(child.iter.heap, rid, row, image, Stmt(), pages, k0, s0, child.iter.at);
      again := rc != DB_OK;
    }

    /** update_next: rows whose update fails for want of room are passed over. */
    method Next() returns (rc: int, row: Bytes)
      requires Valid()
      modifies this, child.iter, child.iter.heap`pages, child.iter.heap.frames.Values
      ensures Valid()
      ensures rc == DB_OK ==> old(Rest()) == OneMore(Rest())
      ensures rc != DB_OK ==> old(Rest()) == Swept(child.iter.heap.pages, 0, rc)
    {
      if done {
        return DB_PAGE_NOT_FOUND, [];
      }
      while true
        invariant Valid() && !done && Rest() == old(Rest())
        decreases Far(), Near()
      {
        var again;
        rc, row, again := TryRow();
        if !again {
          break;
        }
      }
    }
  }

  lemma EachRowUpdated(pass: Bytes -> bool, rewrite: Bytes -> Image, pages: seq<Page>)
    requires Shaped(pages)
    ensures var after := Sweep(Update(pass, rewrite), pages, 0, 0).pages;
            forall k: nat, s: nat {:trigger H.TupleAt(after, k, s)} :: k < |pages| ==>
              if H.TupleAt(pages, k, s).Some? then RowUpdated(pass, rewrite, pages, k, s, H.TupleAt(after, k, s))
              else H.TupleAt(after, k, s) == None
  {
    forall k: nat, s: nat | k < |pages| {
      UpdatedRow(pass, rewrite, pages, k, s);
    }
  }

  /** execute_dml for UPDATE: the rows affected are counted until the executor stops for whatever reason. */
  method ExecuteUpdate(heap: H.BpmHeap, pass: Bytes -> bool, rewrite: Bytes -> Image) returns (affected: nat)
    requires heap.Valid()
    modifies heap`pages, heap.frames.Values
    ensures heap.Valid()
    ensures var stmt := Update(pass, rewrite);
            && heap.pages == Sweep(stmt, old(heap.pages), 0, 0).pages
            && affected == |AffectedRows(stmt, old(heap.pages), 0, 0, FirstFailure(stmt, old(heap.pages), 0, 0))|
    ensures forall k: nat, s: nat {:trigger H.TupleAt(heap.pages, k, s)} :: k < |old(heap.pages)| ==>
              if H.TupleAt(old(heap.pages), k, s).Some? then RowUpdated(pass, rewrite, old(heap.pages), k, s, H.TupleAt(heap.pages, k, s))
              else H.TupleAt(heap.pages, k, s) == None
  {
    var scan := new S.SeqScan(heap, pass);
    var exec := new UpdateExecutor(scan, rewrite);
    ghost var whole := exec.Rest();
    AffectedExact(exec.Stmt(), heap.pages);
    heap.AllShaped();
    EachRowUpdated(pass, rewrite, heap.pages);
    affected := 0;
    while true
      invariant exec.Valid() && exec.child == scan && fresh(exec) && fresh(scan) && fresh(scan.iter) && scan.iter.heap == heap
      invariant affected <= whole.affected && exec.Rest() == whole.(affected := whole.affected - affected)
      decreases whole.affected - affected
    {
      var rc, row := exec.Next();
      if rc != DB_OK {
        break;
      }
      affected := affected + 1;
    }
  }

  /** execute_dml for DELETE: exactly the rows that do not match are left, in their order and under their rids. */
  method ExecuteDelete(heap: H.BpmHeap, pass: Bytes -> bool) returns (affected: nat)
    requires heap.Valid()
    modifies heap`pages, heap.frames.Values
    ensures heap.Valid()
    ensures var rows := old(H.Ahead(heap.chain, heap.pages, 0, 0));
            && H.Ahead(heap.chain, heap.pages, 0, 0) == Kept(pass, rows)
            && affected == |rows| - |Kept(pass, rows)|
  {
    var scan := new S.SeqScan(heap, pass);
    var exec := new DeleteExecutor(scan);
    ghost var whole, pages := exec.Rest(), heap.pages;
    heap.AllShaped();
    DeleteExact(exec.Stmt(), heap.chain, pages, 0, 0);
    affected := 0;
    while true
      invariant exec.Valid() && exec.child == scan && fresh(exec) && fresh(scan) && fresh(scan.iter) && scan.iter.heap == heap
      invariant affected <= whole.affected && exec.Rest() == whole.(affected := whole.affected - affected)
      decreases whole.affected - affected
    {
      var rc, row := exec.Next();
      if rc != DB_OK {
        break;
      }
      affected := affected + 1;
    }
  }
}
