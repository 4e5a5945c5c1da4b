/** Scans over a heap (src/executor/bpm_heap.c, src/executor/seq_scan_executor.c), also while the heap is
    being modified behind the scan. */
module HeapScan {
  import opened Wrappers
  import opened PageBytes
  import opened SlottedPage
  import opened Sequences
  import H = BpmHeap

  /** The scan comes from `(k0, s0)` to `(k1, s1)` without passing a row. */
  ghost predicate Reached(pages: seq<Page>, k0: nat, s0: nat, k1: nat, s1: nat)
    decreases |pages| - k0, if k0 < |pages| then |pages[k0].tuples| - s0 else 0
  {
    || (k0 == k1 && s0 == s1)
    || (k0 < |pages| && if s0 >= |pages[k0].tuples| then Reached(pages, k0 + 1, 0, k1, s1)
                        else pages[k0].tuples[s0].None? && Reached(pages, k0, s0 + 1, k1, s1))
  }

  lemma {:induction false} ReachedTrans(pages: seq<Page>, k0: nat, s0: nat, k1: nat, s1: nat, k2: nat, s2: nat)
    requires Reached(pages, k0, s0, k1, s1) && Reached(pages, k1, s1, k2, s2)
    ensures Reached(pages, k0, s0, k2, s2)
    decreases |pages| - k0, if k0 < |pages| then |pages[k0].tuples| - s0 else 0
  {
    if k0 != k1 || s0 != s1 {
      if s0 >= |pages[k0].tuples| {
        ReachedTrans(pages, k0 + 1, 0, k1, s1, k2, s2);
      } else {
        ReachedTrans(pages, k0, s0 + 1, k1, s1, k2, s2);
      }
    }
  }

  lemma {:induction false} ReachedIn(pages: seq<Page>, k: nat, s0: nat, s1: nat)
    requires k < |pages| && s0 <= s1 && (s0 == s1 || s1 <= |pages[k].tuples|)
    requires forall i {:trigger pages[k].tuples[i]} :: s0 <= i < s1 && i < |pages[k].tuples| ==> pages[k].tuples[i] == None
    ensures Reached(pages, k, s0, k, s1)
    decreases s1 - s0
  {
    if s0 < s1 {
      ReachedIn(pages, k, s0 + 1, s1);
    }
  }

  /** So the rows ahead stay the same. */
  lemma {:induction false} ReachedAhead(chain: seq<H.PageId>, pages: seq<Page>, k0: nat, s0: nat, k1: nat, s1: nat)
    requires |chain| == |pages| && Reached(pages, k0, s0, k1, s1)
    ensures H.Ahead(chain, pages, k0, s0) == H.Ahead(chain, pages, k1, s1) && H.AtOrBehind(k1, s1, k0, s0)
    decreases |pages| - k0, if k0 < |pages| then |pages[k0].tuples| - s0 else 0
  {
    if k0 != k1 || s0 != s1 {
      if s0 >= |pages[k0].tuples| {
        ReachedAhead(chain, pages, k0 + 1, 0, k1, s1);
      } else {
        ReachedAhead(chain, pages, k0, s0 + 1, k1, s1);
      }
    }
  }

  /** The search for a live slot in the current page. */
  method FirstLive(frame: array<Byte>, from: nat) returns (slot: nat)
    requires frame.Length == PAGE_SIZE && PageOk(frame[..])
    ensures from <= slot && (slot == from || slot <= NumSlots(frame[..]))
    ensures forall i {:trigger Slots(frame[..])[i]} :: from <= i < slot && i < NumSlots(frame[..]) ==>
              Slots(frame[..])[i].size == 0
    ensures slot < NumSlots(frame[..]) ==> Slots(frame[..])[slot].size > 0
  {
    slot := from;
    var numSlots := ReadU32(frame, NUM_TUPLES);
    while slot < numSlots
      invariant from <= slot && (slot == from || slot <= numSlots)
      invariant forall i {:trigger Slots(frame[..])[i]} :: from <= i < slot && i < numSlots ==>
                  Slots(frame[..])[i].size == 0
    {
      assert Slots(frame[..])[slot] == SlotAt(frame[..], slot);
      if ReadU16(frame, SlotPos(slot) + 2) > 0 {
        return;
      }
      slot := slot + 1;
    }
  }

  /** The bytes of the tuple in a live slot. */
  method ReadTuple(frame: array<Byte>, slot: nat) returns (data: Bytes)
    requires frame.Length == PAGE_SIZE && PageOk(frame[..])
    requires slot < NumSlots(frame[..]) && Slots(frame[..])[slot].size > 0
    ensures Tuples(frame[..])[slot] == Some(data)
  {
    assert InBounds(Slots(frame[..]), slot) && Slots(frame[..])[slot] == SlotAt(frame[..], slot);
    var offset, size := ReadU16(frame, SlotPos(slot)), ReadU16(frame, SlotPos(slot) + 2);
    data := frame[offset..offset + size];
  }

  /** The first row from `(k0, s0)` on is that of slot `s1` of page `k1`. */
  ghost predicate Found(pages: seq<Page>, k0: nat, s0: nat, k1: nat, s1: nat, data: Bytes) {
    Reached(pages, k0, s0, k1, s1) && H.TupleAt(pages, k1, s1) == Some(data)
  }

  /** The loop body of bpm_heap_iter_next: a row of the page or its next link. */
  method ScanPage(frame: array<Byte>, from: nat, ghost pages: seq<Page>, ghost k0: nat, ghost s0: nat, ghost k: nat)
    returns (found: bool, slot: nat, data: Bytes, next: H.PageId)
    requires frame.Length == PAGE_SIZE && PageOk(frame[..])
    requires k < |pages| && pages[k] == Abs(frame[..]) && PageShape(pages[k])
    requires Reached(pages, k0, s0, k, from)
    ensures found ==> Found(pages, k0, s0, k, slot, data)
    ensures !found ==> Reached(pages, k0, s0, k + 1, 0) && next == pages[k].next
  {
    slot := FirstLive(frame, from);
    ReachedIn(pages, k, from, slot);
    ReachedTrans(pages, k0, s0, k, from, k, slot);
    if slot < ReadU32(frame, NUM_TUPLES) {
      data := ReadTuple(frame, slot);
      return true, slot, data, H.INVALID_PAGE_ID;
    }
    ReachedTrans(pages, k0, s0, k, slot, k + 1, 0);
    return false, slot, [], ReadI32(frame, NEXT_PAGE);
  }

  method ScanFrom(heap: H.BpmHeap, pageId: H.PageId, from: nat, ghost pages: seq<Page>,
                  ghost k0: nat, ghost s0: nat, ghost k: nat)
    returns (found: bool, slot: nat, data: Bytes, next: H.PageId)
    requires heap.Valid() && pages == heap.pages && k < |pages| && pageId == H.IdAt(heap.chain, k)
    requires Reached(pages, k0, s0, k, from)
    ensures found ==> Found(pages, k0, s0, k, slot, data)
    ensures !found ==> Reached(pages, k0, s0, k + 1, 0) && next == H.IdAt(heap.chain, k + 1)
    ensures H.IdAt(heap.chain, k + 1) == H.INVALID_PAGE_ID <==> k + 1 == |heap.chain|
  {
    heap.PageAt(k);
    H.IdAtEnd(heap.firstPageId, heap.chain, pages, k + 1);
    found, slot, data, next := ScanPage(heap.frames[pageId], from, pages, k0, s0, k);
  }

  /** The loop of bpm_heap_iter_next over the pages; `at` is the place of the current one in the chain. */
  method Advance(heap: H.BpmHeap, first: H.PageId, start: nat, ghost pages: seq<Page>, ghost k0: nat)
    returns (found: bool, pageId: H.PageId, slot: nat, data: Bytes, ghost at: nat)
    requires heap.Valid() && pages == heap.pages && k0 <= |pages| && first == H.IdAt(heap.chain, k0)
    requires k0 == |pages| ==> start == 0
    ensures at <= |pages| && pageId == H.IdAt(heap.chain, at) && (found <==> at < |pages|)
    ensures found ==> Found(pages, k0, start, at, slot, data)
    ensures !found ==> Reached(pages, k0, start, at, 0)
  {
    pageId, at := first, k0;
    var from := start;
    H.IdAtEnd(heap.firstPageId, heap.chain, pages, at);
    while pageId != H.INVALID_PAGE_ID
      invariant at <= |pages| && pageId == H.IdAt(heap.chain, at) && (pageId == H.INVALID_PAGE_ID <==> at == |pages|)
      invariant Reached(pages, k0, start, at, from) && (at == |pages| ==> from == 0)
      decreases |pages| - at
    {
      var next;
      found, slot, data, next := ScanFrom(heap, pageId, from, pages, k0, start, at);
      if found {
        return;
      }
      pageId, from, at := next, 0, at + 1;
    }
    found, slot, data := false, 0, [];
  }

  /** bpm_heap_iter_t. */
  class HeapIterator {
    const heap: H.BpmHeap
    var currentPageId: H.PageId
    var currentSlot: nat
    /** Whether the current page is held; its slot counter is reset when it is fetched. */
    var pinned: bool
    ghost var at: nat

    ghost predicate Valid()
      reads this, heap
    {
      && at <= |heap.chain| && currentPageId == H.IdAt(heap.chain, at)
      && (pinned ==> at < |heap.chain|)
    }

    ghost function Slot(): nat
      reads this
    {
      if pinned then currentSlot else 0
    }

    constructor (heap: H.BpmHeap)
      requires heap.Valid()
      ensures this.heap == heap && Valid() && at == 0 && Slot() == 0
    {
      this.heap := heap;
      currentPageId, currentSlot, pinned, at := heap.firstPageId, 0, false, 0;
    }

    /** bpm_heap_iter_next: the first row ahead. */
    method Next() returns (rc: int, rid: H.Rid, data: Bytes)
      requires heap.Valid() && Valid()
      modifies this
      ensures Valid()
      ensures rc == DB_OK ==>
                && pinned && rid.slot >= 0 && currentSlot == rid.slot + 1 && rid.page == heap.chain[at]
                && Found(old(heap.pages), old(at), old(Slot()), at, rid.slot, data)
      ensures rc != DB_OK ==>
                && rc == DB_PAGE_NOT_FOUND && at == |heap.chain| && !pinned
                && Reached(old(heap.pages), old(at), old(Slot()), at, 0)
    {
      var found, slot;
      ghost var k;
      found, currentPageId, slot, data, k :=
        Advance(heap, currentPageId, if pinned then currentSlot else 0, heap.pages, at);
      at, pinned := k, found;
      if found {
        currentSlot := slot + 1;
        return DB_OK, H.Rid(currentPageId, slot), data;
      }
      return DB_PAGE_NOT_FOUND, H.Rid(H.INVALID_PAGE_ID, H.INVALID_SLOT_ID), [];
    }
  }

  lemma NextRow(chain: seq<H.PageId>, pages: seq<Page>, k0: nat, s0: nat, k1: nat, s1: nat, data: Bytes)
    requires |chain| == |pages| && Found(pages, k0, s0, k1, s1, data)
    ensures H.Ahead(chain, pages, k0, s0) == [H.Row(H.Rid(chain[k1], s1), data)] + H.Ahead(chain, pages, k1, s1 + 1)
  {
    ReachedAhead(chain, pages, k0, s0, k1, s1);
  }

  lemma NoNextRow(chain: seq<H.PageId>, pages: seq<Page>, k0: nat, s0: nat)
    requires |chain| == |pages| && Reached(pages, k0, s0, |chain|, 0)
    ensures H.Ahead(chain, pages, k0, s0) == []
  {
    ReachedAhead(chain, pages, k0, s0, |chain|, 0);
  }

  /** Drained, the iterator has returned each live tuple exactly once, in the order of pages and slots. */
  method AllRows(heap: H.BpmHeap) returns (rows: seq<H.Row>)
    requires heap.Valid()
    ensures heap.Valid() && rows == H.Ahead(heap.chain, heap.pages, 0, 0)
    ensures H.OnlyLive(heap.chain, heap.pages, rows, 0, 0) && H.AllLive(heap.chain, heap.pages, rows, 0, 0)
    ensures H.DistinctRids(rows)
  {
    var iter := new HeapIterator(heap);
    rows := [];
    ghost var ahead := H.Ahead(heap.chain, heap.pages, 0, 0);
    while true
      invariant iter.heap == heap && heap.Valid() && iter.Valid() && fresh(iter)
      invariant ahead == H.Ahead(heap.chain, heap.pages, iter.at, iter.Slot())
      invariant rows + ahead == H.Ahead(heap.chain, heap.pages, 0, 0)
      decreases |ahead|
    {
      ghost var k0, s0 := iter.at, iter.Slot();
      var rc, rid, data := iter.Next();
      if rc != DB_OK {
        NoNextRow(heap.chain, heap.pages, k0, s0);
        H.AheadExact(heap.chain, heap.pages, 0, 0);
        return;
      }
      NextRow(heap.chain, heap.pages, k0, s0, iter.at, rid.slot, data);
      ahead := H.Ahead(heap.chain, heap.pages, iter.at, iter.Slot());
      OneTaken(rows, H.Row(rid, data), ahead);
      rows := rows + [H.Row(rid, data)];
    }
  }

  /** The scan comes from `(k0, s0)` to `(k1, s1)` without passing a row the predicate lets through. */
  ghost predicate Skips(pass: Bytes -> bool, pages: seq<Page>, k0: nat, s0: nat, k1: nat, s1: nat)
    decreases |pages| - k0, if k0 < |pages| then |pages[k0].tuples| - s0 else 0
  {
    || (k0 == k1 && s0 == s1)
    || (k0 < |pages| && if s0 >= |pages[k0].tuples| then Skips(pass, pages, k0 + 1, 0, k1, s1)
                        else (pages[k0].tuples[s0].None? || !pass(pages[k0].tuples[s0].value))
                             && Skips(pass, pages, k0, s0 + 1, k1, s1))
  }

  lemma {:induction false} ReachedSkips(pass: Bytes -> bool, pages: seq<Page>, k0: nat, s0: nat, k1: nat, s1: nat,
                                        k2: nat, s2: nat)
    requires Reached(pages, k0, s0, k1, s1) && Skips(pass, pages, k1, s1, k2, s2)
    ensures Skips(pass, pages, k0, s0, k2, s2)
    decreases |pages| - k0, if k0 < |pages| then |pages[k0].tuples| - s0 else 0
  {
    if k0 != k1 || s0 != s1 {
      if s0 >= |pages[k0].tuples| {
        ReachedSkips(pass, pages, k0 + 1, 0, k1, s1, k2, s2);
      } else {
        ReachedSkips(pass, pages, k0, s0 + 1, k1, s1, k2, s2);
      }
    }
  }

  lemma {:induction false} SkipsTrans(pass: Bytes -> bool, pages: seq<Page>, k0: nat, s0: nat, k1: nat, s1: nat,
                                      k2: nat, s2: nat)
    requires Skips(pass, pages, k0, s0, k1, s1) && Skips(pass, pages, k1, s1, k2, s2)
    ensures Skips(pass, pages, k0, s0, k2, s2)
    decreases |pages| - k0, if k0 < |pages| then |pages[k0].tuples| - s0 else 0
  {
    if k0 != k1 || s0 != s1 {
      if s0 >= |pages[k0].tuples| {
        SkipsTrans(pass, pages, k0 + 1, 0, k1, s1, k2, s2);
      } else {
        SkipsTrans(pass, pages, k0, s0 + 1, k1, s1, k2, s2);
      }
    }
  }

  /** The first row of the predicate from `(k0, s0)` on. */
  ghost predicate FoundPassing(pass: Bytes -> bool, pages: seq<Page>, k0: nat, s0: nat, k1: nat, s1: nat, data: Bytes) {
    Skips(pass, pages, k0, s0, k1, s1) && H.TupleAt(pages, k1, s1) == Some(data) && pass(data)
  }

  lemma RowFound(pass: Bytes -> bool, pages: seq<Page>, k0: nat, s0: nat, k1: nat, s1: nat, k2: nat, s2: nat, data: Bytes)
    requires Skips(pass, pages, k0, s0, k1, s1) && Found(pages, k1, s1, k2, s2, data)
    ensures if pass(data) then FoundPassing(pass, pages, k0, s0, k2, s2, data)
            else Skips(pass, pages, k0, s0, k2, s2 + 1)
    ensures H.AtOrBehind(k2, s2, k1, s1) && k2 < |pages| && s2 < |pages[k2].tuples|
  {
    ReachedSkips(pass, pages, k1, s1, k2, s2, k2, s2);
    SkipsTrans(pass, pages, k0, s0, k1, s1, k2, s2);
    ReachedAhead(seq(|pages|, _ => 0), pages, k1, s1, k2, s2);
    if !pass(data) {
      SkipsTrans(pass, pages, k0, s0, k2, s2, k2, s2 + 1);
    }
  }

  lemma NoRowLeft(pass: Bytes -> bool, pages: seq<Page>, k0: nat, s0: nat, k1: nat, s1: nat, k2: nat)
    requires Skips(pass, pages, k0, s0, k1, s1) && Reached(pages, k1, s1, k2, 0)
    ensures Skips(pass, pages, k0, s0, k2, 0)
  {
    ReachedSkips(pass, pages, k1, s1, k2, 0, k2, 0);
    SkipsTrans(pass, pages, k0, s0, k1, s1, k2, 0);
  }

  /** The sequential scan with its predicate. */
  class SeqScan {
    const iter: HeapIterator
    const pass: Bytes -> bool

    constructor (heap: H.BpmHeap, pass: Bytes -> bool)
      requires heap.Valid()
      ensures this.pass == pass && iter.heap == heap && iter.Valid() && iter.at == 0 && iter.Slot() == 0 && fresh(iter)
    {
      this.pass := pass;
      iter := new HeapIterator(heap);
    }

    /** One row from the iterator. */
    method Pull(ghost pages: seq<Page>, ghost k0: nat, ghost s0: nat) returns (rc: int, rid: H.Rid, data: Bytes)
      requires iter.heap.Valid() && iter.Valid() && iter.heap.pages == pages
      requires Skips(pass, pages, k0, s0, iter.at, iter.Slot())
      modifies iter
      ensures iter.Valid()
      ensures rc == DB_OK ==>
                && iter.pinned && rid.slot >= 0 && iter.currentSlot == rid.slot + 1 && rid.page == iter.heap.chain[iter.at]
                && H.AtOrBehind(iter.at, rid.slot, old(iter.at), old(iter.Slot()))
                && iter.currentSlot <= |pages[iter.at].tuples|
      ensures rc == DB_OK && pass(data) ==> FoundPassing(pass, pages, k0, s0, iter.at, rid.slot, data)
      ensures rc == DB_OK && !pass(data) ==> Skips(pass, pages, k0, s0, iter.at, rid.slot + 1)
      ensures rc != DB_OK ==>
                && rc == DB_PAGE_NOT_FOUND && iter.at == |iter.heap.chain| && !iter.pinned
                && Skips(pass, pages, k0, s0, iter.at, 0)
    {
      ghost var k1, s1 := iter.at, iter.Slot();
      rc, rid, data := iter.Next();
      if rc == DB_OK {
        RowFound(pass, pages, k0, s0, k1, s1, iter.at, rid.slot, data);
      } else {
        NoRowLeft(pass, pages, k0, s0, k1, s1, iter.at);
      }
    }

    /** seq_scan_next. */
    method Next() returns (rc: int, rid: H.Rid, data: Bytes)
      requires iter.heap.Valid() && iter.Valid()
      modifies iter
      ensures iter.Valid()
      ensures rc == DB_OK ==>
                && iter.pinned && rid.slot >= 0 && iter.currentSlot == rid.slot + 1 && rid.page == iter.heap.chain[iter.at]
                && rid.slot < |iter.heap.pages[iter.at].tuples| && H.AtOrBehind(iter.at, rid.slot, old(iter.at), old(iter.Slot()))
                && FoundPassing(pass, old(iter.heap.pages), old(iter.at), old(iter.Slot()), iter.at, rid.slot, data)
      ensures rc != DB_OK ==>
                && rc == DB_PAGE_NOT_FOUND && iter.at == |iter.heap.chain| && !iter.pinned
                && Skips(pass, old(iter.heap.pages), old(iter.at), old(iter.Slot()), iter.at, 0)
    {
      ghost var pages, k0, s0 := iter.heap.pages, iter.at, iter.Slot();
      while true
        invariant iter.heap.Valid() && iter.heap.pages == pages && iter.Valid()
        invariant Skips(pass, pages, k0, s0, iter.at, iter.Slot()) && H.AtOrBehind(iter.at, iter.Slot(), k0, s0)
        decreases |pages| - iter.at, if iter.at < |pages| then |pages[iter.at].tuples| - iter.Slot() else 0
      {
        rc, rid, data := Pull(pages, k0, s0);
        if rc != DB_OK || pass(data) {
          return;
        }
      }
    }
  }
}
