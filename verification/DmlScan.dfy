/** UPDATE and DELETE (src/executor/update_executor.c, src/executor/delete_executor.c): what a scan that
    modifies the heap it scans makes of it. */
module DmlScan {
  import opened Wrappers
  import opened PageBytes
  import opened SlottedPage
  import H = BpmHeap

  type ErrorCode = rc: int | rc != DB_OK witness DB_PAGE_NOT_FOUND

  /** The new image of a row, or why its assignments could not be evaluated or serialised. */
  datatype Image = Image(data: Bytes) | Fails(rc: ErrorCode)

  /** `pass` is deserialisation and predicate of the scan below. */
  datatype Statement =
    | Update(pass: Bytes -> bool, rewrite: Bytes -> Image)
    | Delete(pass: Bytes -> bool)

  /** The size is passed on as a 16-bit number. */
  function Truncated(data: Bytes): (r: Bytes)
    ensures |r| < 0x1_0000 && (|data| < 0x1_0000 ==> r == data)
  {
    data[..|data| % 0x1_0000]
  }

  ghost predicate Matches(stmt: Statement, pg: Page, s: nat) {
    Live(pg, s) && |pg.slots| == |pg.tuples| && pg.tuples[s].Some? && stmt.pass(pg.tuples[s].value)
  }

  ghost predicate Failing(stmt: Statement, pg: Page, s: nat) {
    Matches(stmt, pg, s) && stmt.Update? && stmt.rewrite(pg.tuples[s].value).Fails?
  }

  ghost function NewImage(stmt: Statement, pg: Page, s: nat): Bytes
    requires Matches(stmt, pg, s) && stmt.Update? && !Failing(stmt, pg, s)
  {
    Truncated(stmt.rewrite(pg.tuples[s].value).data)
  }

  /** Whether the statement changes the row; a new image has to fit the page. */
  ghost predicate Affects(stmt: Statement, pg: Page, s: nat) {
    && Matches(stmt, pg, s) && !Failing(stmt, pg, s)
    && (stmt.Delete? || (NewImage(stmt, pg, s) != [] && UpdateFits(pg, s, |NewImage(stmt, pg, s)|)))
  }

  ghost function Visit(stmt: Statement, pg: Page, s: nat): (r: Page)
    ensures |r.tuples| == |pg.tuples| && |r.slots| == |pg.slots| && r.next == pg.next
    ensures forall i {:trigger r.tuples[i]} :: 0 <= i < |r.tuples| && i != s ==> r.tuples[i] == pg.tuples[i]
    ensures forall i {:trigger r.slots[i]} :: 0 <= i < |r.slots| && i != s ==> r.slots[i] == pg.slots[i]
    ensures s < |pg.tuples| ==>
              r.tuples[s] == if !Affects(stmt, pg, s) then pg.tuples[s]
                             else if stmt.Delete? then None else Some(NewImage(stmt, pg, s))
  {
    if !Affects(stmt, pg, s) then pg
    else if stmt.Delete? then Without(pg, s)
    else WithImage(pg, s, NewImage(stmt, pg, s))
  }

  /** What is left of the heap, how many rows were affected, how the scan ended. */
  datatype Swept = Swept(pages: seq<Page>, affected: nat, rc: int)

  /** The scan from slot `s` of page `k` on. */
  ghost function Sweep(stmt: Statement, pages: seq<Page>, k: nat, s: nat): (r: Swept)
    ensures |r.pages| == |pages|
    decreases |pages| - k, if k < |pages| then |pages[k].tuples| - s else 0
  {
    if k >= |pages| then Swept(pages, 0, DB_PAGE_NOT_FOUND)
    else if s >= |pages[k].tuples| then Sweep(stmt, pages, k + 1, 0)
    else if Failing(stmt, pages[k], s) then Swept(pages, 0, stmt.rewrite(pages[k].tuples[s].value).rc)
    else
      var r := Sweep(stmt, pages[k := Visit(stmt, pages[k], s)], k, s + 1);
      if Affects(stmt, pages[k], s) then r.(affected := r.affected + 1) else r
  }

  // ---------------------------------------------------------------------------------------------
  // What it means

  /** The first row whose rewriting fails, or the end of the heap; on the heap as it was. */
  ghost function FirstFailure(stmt: Statement, pages: seq<Page>, k: nat, s: nat): (nat, nat)
    decreases |pages| - k, if k < |pages| then |pages[k].tuples| - s else 0
  {
    if k >= |pages| then (|pages|, 0)
    else if s >= |pages[k].tuples| then FirstFailure(stmt, pages, k + 1, 0)
    else if Failing(stmt, pages[k], s) then (k, s)
    else FirstFailure(stmt, pages, k, s + 1)
  }

  ghost predicate NoFailure(stmt: Statement, pg: Page, n: nat) {
    forall s {:trigger Failing(stmt, pg, s)} :: 0 <= s < n ==> !Failing(stmt, pg, s)
  }

  /** A page behind the visits of its first `n` slots. */
  ghost function PageAfter(stmt: Statement, pg: Page, n: nat): (r: Page)
    ensures |r.tuples| == |pg.tuples| && |r.slots| == |pg.slots| && r.next == pg.next
    ensures forall i {:trigger r.tuples[i]} :: n <= i < |pg.tuples| ==> r.tuples[i] == pg.tuples[i]
    ensures forall i {:trigger r.slots[i]} :: n <= i < |pg.slots| ==> r.slots[i] == pg.slots[i]
  {
    if n == 0 then pg else Visit(stmt, PageAfter(stmt, pg, n - 1), n - 1)
  }

  /** What a statement makes of the row in slot `s`, which the scan finds as it was at the start. */
  ghost function Revised(stmt: Statement, pg: Page, s: nat): Option<Bytes>
    requires s < |pg.tuples|
  {
    if !Matches(stmt, pg, s) || Failing(stmt, pg, s) then pg.tuples[s]
    else if stmt.Delete? then None
    else if Affects(stmt, PageAfter(stmt, pg, s), s) then Some(NewImage(stmt, pg, s))
    else pg.tuples[s]
  }

  lemma SlotVisited(stmt: Statement, pg: Page, s: nat)
    requires s < |pg.tuples|
    ensures PageAfter(stmt, pg, s).tuples[s] == pg.tuples[s]
    ensures Visit(stmt, PageAfter(stmt, pg, s), s).tuples[s] == Revised(stmt, pg, s)
  {
  }

  lemma {:induction false} SlotAfter(stmt: Statement, pg: Page, n: nat, i: nat)
    requires i < |pg.tuples|
    ensures PageAfter(stmt, pg, n).tuples[i] == if i < n then Revised(stmt, pg, i) else pg.tuples[i]
    decreases n
  {
    if i < n {
      if i < n - 1 {
        SlotAfter(stmt, pg, n - 1, i);
      } else {
        SlotVisited(stmt, pg, i);
      }
    }
  }

  ghost predicate Done(stmt: Statement, pg: Page, r: Page, n: nat) {
    NoFailure(stmt, pg, n) && r == PageAfter(stmt, pg, n)
  }

  /** The scan ran up to `stop`. */
  ghost predicate Upto(stmt: Statement, pages: seq<Page>, now: seq<Page>, stop: (nat, nat)) {
    true <==> RanTo(stmt, pages, now, stop)
  }

  // Kept apart from Upto so that the solver does not take it to pieces at every call.
  ghost predicate RanTo(stmt: Statement, pages: seq<Page>, now: seq<Page>, stop: (nat, nat)) {
    && |now| == |pages|
    && (forall i {:trigger now[i]} :: 0 <= i < |pages| && i < stop.0 ==> Done(stmt, pages[i], now[i], |pages[i].tuples|))
    && (forall i {:trigger now[i]} :: 0 <= i < |pages| && i > stop.0 ==> now[i] == pages[i])
    && (stop.0 < |pages| ==> stop.1 <= |pages[stop.0].tuples| && Done(stmt, pages[stop.0], now[stop.0], stop.1))
  }

  lemma NextPageReached(stmt: Statement, pages: seq<Page>, now: seq<Page>, k: nat)
    requires k < |pages| && Upto(stmt, pages, now, (k, |pages[k].tuples|))
    ensures Upto(stmt, pages, now, (k + 1, 0))
  {
    if k + 1 < |pages| {
      assert now[k + 1] == pages[k + 1];
    }
  }

  lemma NextSlotReached(stmt: Statement, pages: seq<Page>, now: seq<Page>, k: nat, s: nat)
    requires k < |pages| && s < |pages[k].tuples| && Upto(stmt, pages, now, (k, s))
    requires !Failing(stmt, pages[k], s)
    ensures Upto(stmt, pages, now[k := Visit(stmt, now[k], s)], (k, s + 1))
  {
    assert PageAfter(stmt, pages[k], s + 1) == Visit(stmt, now[k], s);
  }

  /** The slot the scan comes to holds what it held at the start. */
  lemma StillThere(stmt: Statement, pages: seq<Page>, now: seq<Page>, k: nat, s: nat)
    requires k < |pages| && Upto(stmt, pages, now, (k, s))
    ensures |now[k].tuples| == |pages[k].tuples| && (Failing(stmt, now[k], s) <==> Failing(stmt, pages[k], s))
    ensures s < |pages[k].tuples| ==> now[k].tuples[s] == pages[k].tuples[s]
  {
  }

  lemma SweepSlot(stmt: Statement, pages: seq<Page>, k: nat, s: nat)
    requires k < |pages| && s < |pages[k].tuples| && !Failing(stmt, pages[k], s)
    ensures var r := Sweep(stmt, pages[k := Visit(stmt, pages[k], s)], k, s + 1);
            Sweep(stmt, pages, k, s) == if Affects(stmt, pages[k], s) then r.(affected := r.affected + 1) else r
  {
  }

  lemma {:induction false} SweepPages(stmt: Statement, pages: seq<Page>, now: seq<Page>, k: nat, s: nat)
    requires Upto(stmt, pages, now, (k, s)) && k <= |pages|
    ensures Upto(stmt, pages, Sweep(stmt, now, k, s).pages, FirstFailure(stmt, pages, k, s))
    decreases |pages| - k, if k < |pages| then |pages[k].tuples| - s else 0
  {
    if k < |pages| {
      StillThere(stmt, pages, now, k, s);
      if s >= |pages[k].tuples| {
        NextPageReached(stmt, pages, now, k);
        SweepPages(stmt, pages, now, k + 1, 0);
      } else if !Failing(stmt, pages[k], s) {
        NextSlotReached(stmt, pages, now, k, s);
        SweepSlot(stmt, now, k, s);
        SweepPages(stmt, pages, now[k := Visit(stmt, now[k], s)], k, s + 1);
      }
    }
  }

  ghost predicate Ends(stmt: Statement, pages: seq<Page>, rc: int, stop: (nat, nat)) {
    if stop.0 >= |pages| then rc == DB_PAGE_NOT_FOUND
    else Failing(stmt, pages[stop.0], stop.1) && rc == stmt.rewrite(pages[stop.0].tuples[stop.1].value).rc
  }

  lemma {:induction false} SweepEnds(stmt: Statement, pages: seq<Page>, now: seq<Page>, k: nat, s: nat)
    requires Upto(stmt, pages, now, (k, s)) && k <= |pages|
    ensures Ends(stmt, pages, Sweep(stmt, now, k, s).rc, FirstFailure(stmt, pages, k, s))
    decreases |pages| - k, if k < |pages| then |pages[k].tuples| - s else 0
  {
    if k < |pages| {
      StillThere(stmt, pages, now, k, s);
      if s >= |pages[k].tuples| {
        NextPageReached(stmt, pages, now, k);
        SweepEnds(stmt, pages, now, k + 1, 0);
      } else if !Failing(stmt, pages[k], s) {
        NextSlotReached(stmt, pages, now, k, s);
        SweepSlot(stmt, now, k, s);
        SweepEnds(stmt, pages, now[k := Visit(stmt, now[k], s)], k, s + 1);
      }
    }
  }

  /** Exactly the matching rows before the first failing one are deleted or rewritten, each from the image it
      had at the start; a row whose image finds no room and every other row stay as they are. */
  lemma SweepExact(stmt: Statement, pages: seq<Page>, k: nat, s: nat)
    requires k < |pages| && s < |pages[k].tuples|
    ensures var r, stop := Sweep(stmt, pages, 0, 0), FirstFailure(stmt, pages, 0, 0);
            && Ends(stmt, pages, r.rc, stop)
            && if H.AtOrBehind(k, s, stop.0, stop.1) then H.TupleAt(r.pages, k, s) == H.TupleAt(pages, k, s)
               else !Failing(stmt, pages[k], s) && H.TupleAt(r.pages, k, s) == Revised(stmt, pages[k], s)
  {
    SweepPages(stmt, pages, pages, 0, 0);
    SweepEnds(stmt, pages, pages, 0, 0);
    var r, stop := Sweep(stmt, pages, 0, 0), FirstFailure(stmt, pages, 0, 0);
    var n := if k < stop.0 then |pages[k].tuples| else stop.1;
    if k <= stop.0 {
      assert Done(stmt, pages[k], r.pages[k], n);
      SlotAfter(stmt, pages[k], n, s);
    } else {
      assert r.pages[k] == pages[k];
    }
  }

  /** The new image of some row at or in front of the place cannot be had. */
  ghost predicate FailsUpTo(pass: Bytes -> bool, rewrite: Bytes -> Image, pages: seq<Page>, k: nat, s: nat) {
    exists i: nat, j: nat {:trigger H.TupleAt(pages, i, j)} :: H.AtOrBehind(k, s, i, j)
      && H.TupleAt(pages, i, j).Some? && pass(H.TupleAt(pages, i, j).value) && rewrite(H.TupleAt(pages, i, j).value).Fails?
  }

  /** The image finds room in the page as it is when the scan comes to the slot: where the old one was, or below. */
  ghost predicate FindsRoom(stmt: Statement, pages: seq<Page>, k: nat, s: nat, size: nat)
    requires k < |pages| && Live(pages[k], s)
  {
    UpdateFits(PageAfter(stmt, pages[k], s), s, size)
  }

  lemma FailureUpTo(pass: Bytes -> bool, rewrite: Bytes -> Image, pages: seq<Page>, k: nat, s: nat)
    requires Shaped(pages) && k < |pages| && s < |pages[k].tuples|
    ensures var stop := FirstFailure(Update(pass, rewrite), pages, 0, 0);
            H.AtOrBehind(k, s, stop.0, stop.1) <==> FailsUpTo(pass, rewrite, pages, k, s)
  {
    var stmt := Update(pass, rewrite);
    var stop := FirstFailure(stmt, pages, 0, 0);
    SweepExact(stmt, pages, k, s);
    if H.AtOrBehind(k, s, stop.0, stop.1) {
      assert Failing(stmt, pages[stop.0], stop.1);
      assert H.TupleAt(pages, stop.0, stop.1).Some?;
    }
    if FailsUpTo(pass, rewrite, pages, k, s) {
      var i: nat, j: nat :| H.AtOrBehind(k, s, i, j) && H.TupleAt(pages, i, j).Some?
        && pass(H.TupleAt(pages, i, j).value) && rewrite(H.TupleAt(pages, i, j).value).Fails?;
      SweepExact(stmt, pages, i, j);
      assert PageShape(pages[i]);
    }
  }

  /** UPDATE, row by row: the row holds the very bytes its rewriting gave, if it passes, no rewriting up to it fails and
      the bytes find room, as those always do that are no more than the old ones; otherwise it is as it was. */
  ghost predicate RowUpdated(pass: Bytes -> bool, rewrite: Bytes -> Image, pages: seq<Page>, k: nat, s: nat, now: Option<Bytes>)
    requires k < |pages| && H.TupleAt(pages, k, s).Some?
  {
    var was := H.TupleAt(pages, k, s).value;
    if !pass(was) || FailsUpTo(pass, rewrite, pages, k, s) then now == Some(was)
    else
      && rewrite(was).Image? && Live(pages[k], s)
      && var data := rewrite(was).data;
         && (data == [] ==> now == Some(was))
         && (0 < |data| < 0x1_0000 ==>
               now == if FindsRoom(Update(pass, rewrite), pages, k, s, |data|) then Some(data) else Some(was))
         && (0 < |data| <= |was| ==> now == Some(data))
  }

  lemma {:induction false} UpdatedRow(pass: Bytes -> bool, rewrite: Bytes -> Image, pages: seq<Page>, k: nat, s: nat)
    requires Shaped(pages) && k < |pages|
    ensures var now := H.TupleAt(Sweep(Update(pass, rewrite), pages, 0, 0).pages, k, s);
            if H.TupleAt(pages, k, s).Some? then RowUpdated(pass, rewrite, pages, k, s, now) else now == None
  {
    var stmt := Update(pass, rewrite);
    if s < |pages[k].tuples| {
      assert PageShape(pages[k]);
      SweepExact(stmt, pages, k, s);
      if pages[k].tuples[s].Some? {
        assert InBounds(pages[k].slots, s);
        FailureUpTo(pass, rewrite, pages, k, s);
        SlotVisited(stmt, pages[k], s);
      }
    } else {
      SamePlaces(stmt, pages, k);
    }
  }

  lemma {:induction false} SamePlaces(stmt: Statement, pages: seq<Page>, k: nat)
    requires k < |pages|
    ensures |Sweep(stmt, pages, 0, 0).pages[k].tuples| == |pages[k].tuples|
  {
    SweepPages(stmt, pages, pages, 0, 0);
    var r, stop := Sweep(stmt, pages, 0, 0), FirstFailure(stmt, pages, 0, 0);
    if k <= stop.0 {
      assert Done(stmt, pages[k], r.pages[k], if k < stop.0 then |pages[k].tuples| else stop.1);
    } else {
      assert r.pages[k] == pages[k];
    }
  }

  /** The row between `(k, s)` and `stop` passes and, for UPDATE, its new image finds room when the scan comes to it. */
  ghost predicate Counted(stmt: Statement, pages: seq<Page>, k: nat, s: nat, stop: (nat, nat), i: nat, j: nat) {
    && i < |pages| && j < |pages[i].tuples| && H.AtOrBehind(i, j, k, s) && !H.AtOrBehind(i, j, stop.0, stop.1)
    && Affects(stmt, PageAfter(stmt, pages[i], j), j)
  }

  ghost function AffectedRows(stmt: Statement, pages: seq<Page>, k: nat, s: nat, stop: (nat, nat)): set<(nat, nat)> {
    set i: nat, j: nat {:trigger Counted(stmt, pages, k, s, stop, i, j)}
      | i < |pages| && j < |pages[i].tuples| && Counted(stmt, pages, k, s, stop, i, j) :: (i, j)
  }

  lemma InAffectedRows(stmt: Statement, pages: seq<Page>, k: nat, s: nat, stop: (nat, nat), r: (nat, nat))
    ensures r in AffectedRows(stmt, pages, k, s, stop) <==> Counted(stmt, pages, k, s, stop, r.0, r.1)
  {
    assert r == (r.0, r.1);
  }

  lemma NoSlotMore(stmt: Statement, pages: seq<Page>, k: nat, s: nat, stop: (nat, nat))
    requires k < |pages| && s >= |pages[k].tuples|
    ensures AffectedRows(stmt, pages, k, s, stop) == AffectedRows(stmt, pages, k + 1, 0, stop)
  {
    var here, next := AffectedRows(stmt, pages, k, s, stop), AffectedRows(stmt, pages, k + 1, 0, stop);
    forall r ensures r in here <==> r in next {
      InAffectedRows(stmt, pages, k, s, stop, r);
      InAffectedRows(stmt, pages, k + 1, 0, stop, r);
    }
  }

  lemma OneRowMore(stmt: Statement, pages: seq<Page>, k: nat, s: nat, stop: (nat, nat), r: (nat, nat))
    requires k < |pages| && s < |pages[k].tuples| && !H.AtOrBehind(k, s, stop.0, stop.1)
    ensures r in AffectedRows(stmt, pages, k, s, stop) <==>
            r in AffectedRows(stmt, pages, k, s + 1, stop) || (r == (k, s) && Affects(stmt, PageAfter(stmt, pages[k], s), s))
  {
    InAffectedRows(stmt, pages, k, s, stop, r);
    InAffectedRows(stmt, pages, k, s + 1, stop, r);
  }

  lemma OneSlotMore(stmt: Statement, pages: seq<Page>, k: nat, s: nat, stop: (nat, nat))
    requires k < |pages| && s < |pages[k].tuples| && !H.AtOrBehind(k, s, stop.0, stop.1)
    ensures |AffectedRows(stmt, pages, k, s, stop)| ==
            |AffectedRows(stmt, pages, k, s + 1, stop)| + if Affects(stmt, PageAfter(stmt, pages[k], s), s) then 1 else 0
  {
    var here, next := AffectedRows(stmt, pages, k, s, stop), AffectedRows(stmt, pages, k, s + 1, stop);
    var affects := Affects(stmt, PageAfter(stmt, pages[k], s), s);
    forall r ensures r in here <==> r in next || (affects && r == (k, s)) {
      OneRowMore(stmt, pages, k, s, stop, r);
    }
    InAffectedRows(stmt, pages, k, s + 1, stop, (k, s));
    assert here == if affects then next + {(k, s)} else next;
  }

  lemma {:induction false} FailureAhead(stmt: Statement, pages: seq<Page>, k: nat, s: nat)
    ensures var stop := FirstFailure(stmt, pages, k, s); H.AtOrBehind(stop.0, stop.1, k, s) || (k >= |pages| && stop == (|pages|, 0))
    decreases |pages| - k, if k < |pages| then |pages[k].tuples| - s else 0
  {
    if k < |pages| {
      if s >= |pages[k].tuples| {
        FailureAhead(stmt, pages, k + 1, 0);
      } else if !Failing(stmt, pages[k], s) {
        FailureAhead(stmt, pages, k, s + 1);
      }
    }
  }

  lemma NoneAhead(stmt: Statement, pages: seq<Page>, k: nat, s: nat, stop: (nat, nat))
    requires H.AtOrBehind(k, s, stop.0, stop.1) || k >= |pages|
    ensures AffectedRows(stmt, pages, k, s, stop) == {}
  {
    forall r ensures r !in AffectedRows(stmt, pages, k, s, stop) {
      InAffectedRows(stmt, pages, k, s, stop, r);
    }
  }

  lemma {:induction false} SweepCounts(stmt: Statement, pages: seq<Page>, now: seq<Page>, k: nat, s: nat)
    requires Upto(stmt, pages, now, (k, s)) && k <= |pages|
    ensures Sweep(stmt, now, k, s).affected == |AffectedRows(stmt, pages, k, s, FirstFailure(stmt, pages, k, s))|
    decreases |pages| - k, if k < |pages| then |pages[k].tuples| - s else 0
  {
    var stop := FirstFailure(stmt, pages, k, s);
    if k >= |pages| {
      NoneAhead(stmt, pages, k, s, stop);
    } else {
      StillThere(stmt, pages, now, k, s);
      if s >= |pages[k].tuples| {
        NextPageReached(stmt, pages, now, k);
        SweepCounts(stmt, pages, now, k + 1, 0);
        NoSlotMore(stmt, pages, k, s, stop);
      } else if Failing(stmt, pages[k], s) {
        NoneAhead(stmt, pages, k, s, stop);
      } else {
        NextSlotReached(stmt, pages, now, k, s);
        SweepSlot(stmt, now, k, s);
        SweepCounts(stmt, pages, now[k := Visit(stmt, now[k], s)], k, s + 1);
        FailureAhead(stmt, pages, k, s + 1);
        OneSlotMore(stmt, pages, k, s, stop);
      }
    }
  }

  /** The number reported is the number of rows in front of the first failing assignment that are deleted or
      rewritten. */
  lemma AffectedExact(stmt: Statement, pages: seq<Page>)
    ensures Sweep(stmt, pages, 0, 0).affected == |AffectedRows(stmt, pages, 0, 0, FirstFailure(stmt, pages, 0, 0))|
  {
    SweepCounts(stmt, pages, pages, 0, 0);
  }

  ghost predicate Shaped(pages: seq<Page>) {
    forall i {:trigger pages[i]} :: 0 <= i < |pages| ==> PageShape(pages[i])
  }

  lemma VisitShape(stmt: Statement, pg: Page, s: nat)
    requires PageShape(pg)
    ensures PageShape(Visit(stmt, pg, s))
  {
    if Affects(stmt, pg, s) {
      if stmt.Delete? {
        WithoutShape(pg, s);
      } else {
        WithImageShape(pg, s, NewImage(stmt, pg, s));
      }
    }
  }

  /** What the scan has passed stays. */
  lemma {:induction false} SweepBehind(stmt: Statement, pages: seq<Page>, k: nat, s: nat)
    ensures var r := Sweep(stmt, pages, k, s).pages;
            && |r| == |pages|
            && (forall i {:trigger r[i]} :: 0 <= i < |pages| && i < k ==> r[i] == pages[i])
            && (k < |pages| ==> |r[k].tuples| == |pages[k].tuples| && r[k].tuples[..Least(s, |pages[k].tuples|)]
                                 == pages[k].tuples[..Least(s, |pages[k].tuples|)])
    decreases |pages| - k, if k < |pages| then |pages[k].tuples| - s else 0
  {
    if k >= |pages| {
    } else if s >= |pages[k].tuples| {
      SweepBehind(stmt, pages, k + 1, 0);
    } else if !Failing(stmt, pages[k], s) {
      var now := pages[k := Visit(stmt, pages[k], s)];
      SweepBehind(stmt, now, k, s + 1);
      var r := Sweep(stmt, now, k, s + 1).pages;
      assert r[k].tuples[..s] == r[k].tuples[..s + 1][..s] == now[k].tuples[..s + 1][..s];
    }
  }

  function Least(a: nat, b: nat): nat { if a < b then a else b }

  ghost function Kept(pass: Bytes -> bool, rows: seq<H.Row>): seq<H.Row> {
    if rows == [] then []
    else if pass(rows[0].data) then Kept(pass, rows[1..])
    else [rows[0]] + Kept(pass, rows[1..])
  }

  /** DELETE leaves exactly the rows that do not match, in their order and under their rids, and reports how
      many it removed. */
  lemma {:induction false} DeleteExact(stmt: Statement, chain: seq<H.PageId>, pages: seq<Page>, k: nat, s: nat)
    requires stmt.Delete? && Shaped(pages) && |chain| == |pages|
    ensures var r := Sweep(stmt, pages, k, s);
            && |r.pages| == |pages|
            && H.Ahead(chain, r.pages, k, s) == Kept(stmt.pass, H.Ahead(chain, pages, k, s))
            && r.affected == |H.Ahead(chain, pages, k, s)| - |H.Ahead(chain, r.pages, k, s)|
    decreases |pages| - k, if k < |pages| then |pages[k].tuples| - s else 0
  {
    SweepBehind(stmt, pages, k, s);
    if k >= |pages| {
    } else if s >= |pages[k].tuples| {
      DeleteExact(stmt, chain, pages, k + 1, 0);
    } else {
      var now := pages[k := Visit(stmt, pages[k], s)];
      VisitShape(stmt, pages[k], s);
      DeleteExact(stmt, chain, now, k, s + 1);
      SweepBehind(stmt, now, k, s + 1);
      AheadIgnores(chain, pages, now, k, s + 1);
      SlotBehind(stmt, now, k, s);
      KeptStep(stmt, chain, pages, k, s);
    }
  }

  lemma SlotBehind(stmt: Statement, pages: seq<Page>, k: nat, s: nat)
    requires k < |pages| && s < |pages[k].tuples|
    ensures var r := Sweep(stmt, pages, k, s + 1).pages; |r[k].tuples| == |pages[k].tuples| && r[k].tuples[s] == pages[k].tuples[s]
  {
    SweepBehind(stmt, pages, k, s + 1);
    var r := Sweep(stmt, pages, k, s + 1).pages;
    assert r[k].tuples[s] == r[k].tuples[..s + 1][s] == pages[k].tuples[..s + 1][s];
  }

  lemma KeptStep(stmt: Statement, chain: seq<H.PageId>, pages: seq<Page>, k: nat, s: nat)
    requires |chain| == |pages| && k < |pages| && s < |pages[k].tuples|
    ensures var rows, more := H.Ahead(chain, pages, k, s), Kept(stmt.pass, H.Ahead(chain, pages, k, s + 1));
            match pages[k].tuples[s]
            case None => Kept(stmt.pass, rows) == more
            case Some(data) =>
              |rows| == |H.Ahead(chain, pages, k, s + 1)| + 1
              && Kept(stmt.pass, rows) == if stmt.pass(data) then more else [H.Row(H.Rid(chain[k], s), data)] + more
  {
    if pages[k].tuples[s].Some? {
      var row := H.Row(H.Rid(chain[k], s), pages[k].tuples[s].value);
      assert ([row] + H.Ahead(chain, pages, k, s + 1))[1..] == H.Ahead(chain, pages, k, s + 1);
    }
  }

  /** The rows ahead do not depend on the slot just passed. */
  lemma {:induction false} AheadIgnores(chain: seq<H.PageId>, pages: seq<Page>, now: seq<Page>, k: nat, s: nat)
    requires |chain| == |pages| == |now|
    requires forall i {:trigger now[i]} :: k < i < |pages| ==> now[i] == pages[i]
    requires k < |pages| ==> |now[k].tuples| == |pages[k].tuples|
    requires k < |pages| ==> forall i {:trigger now[k].tuples[i]} :: s <= i < |pages[k].tuples| ==> now[k].tuples[i] == pages[k].tuples[i]
    ensures H.Ahead(chain, now, k, s) == H.Ahead(chain, pages, k, s)
    decreases |pages| - k, if k < |pages| then |pages[k].tuples| - s else 0
  {
    if k >= |pages| {
    } else if s >= |pages[k].tuples| {
      AheadIgnores(chain, pages, now, k + 1, 0);
    } else {
      AheadIgnores(chain, pages, now, k, s + 1);
      assert now[k].tuples[s] == pages[k].tuples[s];
    }
  }
}
