/** Heap files (src/executor/bpm_heap.c): a chain of slotted pages in buffer pool frames, and the
    iterator over it. */
module BpmHeap {
  import opened Wrappers
  import opened PageBytes
  import opened SlottedPage

  type PageId = int

  const INVALID_PAGE_ID: int := -1
  const INVALID_SLOT_ID: int := -1

  datatype Rid = Rid(page: PageId, slot: int)
  datatype Row = Row(rid: Rid, data: Bytes)

  ghost predicate Distinct(chain: seq<PageId>) {
    forall i, j {:trigger chain[i], chain[j]} :: 0 <= i < j < |chain| ==> chain[i] != chain[j]
  }

  /** The next links lead through the chain and end behind it, so it has no cycle. */
  ghost predicate Linked(first: PageId, chain: seq<PageId>, pages: seq<Page>) {
    && |chain| == |pages| && Distinct(chain)
    && first == IdAt(chain, 0)
    && (forall i {:trigger chain[i]} :: 0 <= i < |chain| ==> 0 <= chain[i] < 0x8000_0000)
    && (forall i {:trigger pages[i]} :: 0 <= i < |pages| ==> pages[i].next == IdAt(chain, i + 1))
  }

  ghost function IdAt(chain: seq<PageId>, i: nat): PageId {
    if i < |chain| then chain[i] else INVALID_PAGE_ID
  }

  /** The place of a page in the chain. */
  ghost function Place(chain: seq<PageId>, page: PageId): (k: nat)
    requires page in chain
    ensures k < |chain| && chain[k] == page
  {
    var k: nat :| k < |chain| && chain[k] == page;
    k
  }

  /** What slot `s` of the `k`-th page holds. */
  ghost function TupleAt(pages: seq<Page>, k: int, s: int): Option<Bytes> {
    if 0 <= k < |pages| && 0 <= s < |pages[k].tuples| then pages[k].tuples[s] else None
  }

  /** The rows from slot `s` of the `k`-th page on, in the order of the chain. */
  ghost function Ahead(chain: seq<PageId>, pages: seq<Page>, k: nat, s: nat): (rows: seq<Row>)
    requires |chain| == |pages|
    decreases |pages| - k, if k < |pages| then |pages[k].tuples| - s else 0
  {
    if k >= |pages| then []
    else if s >= |pages[k].tuples| then Ahead(chain, pages, k + 1, 0)
    else if pages[k].tuples[s].None? then Ahead(chain, pages, k, s + 1)
    else [Row(Rid(chain[k], s), pages[k].tuples[s].value)] + Ahead(chain, pages, k, s + 1)
  }

  ghost predicate AtOrBehind(k: int, s: int, k0: int, s0: int) {
    k > k0 || (k == k0 && s >= s0)
  }

  /** `r` is what the `k`-th page holds, at or behind the position. */
  ghost predicate RowAt(chain: seq<PageId>, pages: seq<Page>, r: Row, k: nat, k0: nat, s0: nat) {
    k < |chain| && r.rid.page == chain[k] && AtOrBehind(k, r.rid.slot, k0, s0)
    && TupleAt(pages, k, r.rid.slot) == Some(r.data)
  }

  ghost predicate IsRow(chain: seq<PageId>, pages: seq<Page>, r: Row, k0: nat, s0: nat) {
    exists k: nat :: RowAt(chain, pages, r, k, k0, s0)
  }

  ghost predicate OnlyLive(chain: seq<PageId>, pages: seq<Page>, rows: seq<Row>, k0: nat, s0: nat) {
    forall i {:trigger rows[i]} :: 0 <= i < |rows| ==> IsRow(chain, pages, rows[i], k0, s0)
  }

  ghost predicate AllLive(chain: seq<PageId>, pages: seq<Page>, rows: seq<Row>, k0: nat, s0: nat)
    requires |chain| == |pages|
  {
    forall k, s {:trigger TupleAt(pages, k, s)} :: AtOrBehind(k, s, k0, s0) && TupleAt(pages, k, s).Some? ==>
      Row(Rid(chain[k], s), TupleAt(pages, k, s).value) in rows
  }

  ghost predicate DistinctRids(rows: seq<Row>) {
    forall i, j {:trigger rows[i], rows[j]} :: 0 <= i < j < |rows| ==> rows[i].rid != rows[j].rid
  }

  /** Each live tuple at or behind the position is listed, nothing else is, and none twice. */
  lemma {:induction false} AheadExact(chain: seq<PageId>, pages: seq<Page>, k0: nat, s0: nat)
    requires |chain| == |pages| && Distinct(chain)
    ensures var rows := Ahead(chain, pages, k0, s0);
            OnlyLive(chain, pages, rows, k0, s0) && AllLive(chain, pages, rows, k0, s0) && DistinctRids(rows)
    decreases |pages| - k0, if k0 < |pages| then |pages[k0].tuples| - s0 else 0
  {
    if k0 < |pages| {
      var k1, s1 := if s0 >= |pages[k0].tuples| then k0 + 1 else k0, if s0 >= |pages[k0].tuples| then 0 else s0 + 1;
      AheadExact(chain, pages, k1, s1);
      AheadStep(chain, pages, k0, s0, Ahead(chain, pages, k1, s1), k1, s1);
    }
  }

  lemma AheadStep(chain: seq<PageId>, pages: seq<Page>, k0: nat, s0: nat, rest: seq<Row>, k1: nat, s1: nat)
    requires |chain| == |pages| && Distinct(chain) && k0 < |pages|
    requires if s0 >= |pages[k0].tuples| then k1 == k0 + 1 && s1 == 0 else k1 == k0 && s1 == s0 + 1
    requires OnlyLive(chain, pages, rest, k1, s1) && AllLive(chain, pages, rest, k1, s1) && DistinctRids(rest)
    ensures var here := TupleAt(pages, k0, s0);
            var rows := if here.Some? then [Row(Rid(chain[k0], s0), here.value)] + rest else rest;
            OnlyLive(chain, pages, rows, k0, s0) && AllLive(chain, pages, rows, k0, s0) && DistinctRids(rows)
  {
    var here := TupleAt(pages, k0, s0);
    var rows := if here.Some? then [Row(Rid(chain[k0], s0), here.value)] + rest else rest;
    forall i | 0 <= i < |rows|
      ensures IsRow(chain, pages, rows[i], k0, s0)
      ensures here.Some? && i > 0 ==> rows[i].rid != rows[0].rid
    {
      if here.Some? && i == 0 {
        assert RowAt(chain, pages, rows[i], k0, k0, s0);
      } else {
        var j := if here.Some? then i - 1 else i;
        assert rows[i] == rest[j] && IsRow(chain, pages, rest[j], k1, s1);
        var k: nat :| RowAt(chain, pages, rest[j], k, k1, s1);
        assert RowAt(chain, pages, rows[i], k, k0, s0);
      }
    }
  }

  ghost function AfterDelete(pages: seq<Page>, k: nat, s: int): seq<Page>
    requires k < |pages|
  {
    if Live(pages[k], s) && |pages[k].tuples| == |pages[k].slots| then pages[k := Without(pages[k], s)] else pages
  }

  ghost function AfterUpdate(pages: seq<Page>, k: nat, s: int, data: Bytes): seq<Page>
    requires k < |pages|
  {
    if data != [] && Live(pages[k], s) && |pages[k].tuples| == |pages[k].slots| && UpdateFits(pages[k], s, |data|)
    then pages[k := WithImage(pages[k], s, data)] else pages
  }

  /** `pages` are the pages whose bytes are given. */
  ghost predicate Describe(pages: seq<Page>, bytes: seq<Bytes>) {
    && |pages| == |bytes|
    && forall i {:trigger bytes[i]} :: 0 <= i < |bytes| ==> PageOk(bytes[i]) && pages[i] == Abs(bytes[i])
  }

  lemma OneRewritten(first: PageId, chain: seq<PageId>, pages: seq<Page>, bytes: seq<Bytes>, k: nat, b: Bytes)
    requires Describe(pages, bytes) && Linked(first, chain, pages) && k < |bytes|
    requires PageOk(b) && Abs(b).next == pages[k].next
    ensures Describe(pages[k := Abs(b)], bytes[k := b]) && Linked(first, chain, pages[k := Abs(b)])
  {
    var r := bytes[k := b];
    forall i {:trigger r[i]} | 0 <= i < |r| ensures PageOk(r[i]) && pages[k := Abs(b)][i] == Abs(r[i]) {
      assert i != k ==> r[i] == bytes[i];
    }
  }

  lemma OneAppended(first: PageId, chain: seq<PageId>, pages: seq<Page>, bytes: seq<Bytes>, pageId: PageId,
                    after: seq<Bytes>)
    requires Describe(pages, bytes) && Linked(first, chain, pages) && bytes != [] && |after| == |bytes| + 1
    requires forall i {:trigger after[i]} :: 0 <= i < |bytes| - 1 ==> after[i] == bytes[i]
    requires PageOk(after[|bytes| - 1]) && Abs(after[|bytes| - 1]) == pages[|pages| - 1].(next := pageId)
    requires PageOk(after[|bytes|]) && Abs(after[|bytes|]) == EMPTY_PAGE && pageId !in chain && 0 <= pageId < 0x8000_0000
    ensures Describe(Extended(pages, pageId), after)
    ensures Linked(first, chain + [pageId], Extended(pages, pageId))
  {
    forall i {:trigger after[i]} | 0 <= i < |after| ensures PageOk(after[i]) && Extended(pages, pageId)[i] == Abs(after[i]) {
      assert i < |bytes| - 1 ==> after[i] == bytes[i];
    }
  }

  lemma IdAtEnd(first: PageId, chain: seq<PageId>, pages: seq<Page>, i: nat)
    requires Linked(first, chain, pages)
    ensures IdAt(chain, i) == INVALID_PAGE_ID <==> i >= |chain|
  {
  }

  /** Frames are page buffers, one for each page; ids still to be handed out are in no frame. */
  ghost predicate PoolOk(frames: map<PageId, array<Byte>>, unused: seq<PageId>) {
    && (forall p {:trigger frames[p]} :: p in frames ==> frames[p].Length == PAGE_SIZE)
    && (forall p, q {:trigger frames[p], frames[q]} :: p in frames && q in frames && p != q ==> frames[p] != frames[q])
    && Distinct(unused)
    && (forall i {:trigger unused[i]} :: 0 <= i < |unused| ==> unused[i] !in frames && 0 <= unused[i] < 0x8000_0000)
  }

  lemma FrameAdded(frames: map<PageId, array<Byte>>, unused: seq<PageId>, frame: array<Byte>)
    requires PoolOk(frames, unused) && unused != [] && frame.Length == PAGE_SIZE
    requires forall p {:trigger frames[p]} :: p in frames ==> frames[p] != frame
    ensures PoolOk(frames[unused[0] := frame], unused[1..])
  {
  }

  const EMPTY_PAGE := Page([], [], INVALID_PAGE_ID)

  ghost predicate NoRoomBefore(pages: seq<Page>, k: nat, size: nat) {
    forall i {:trigger pages[i]} :: 0 <= i < |pages| && i < k ==> !HasRoom(pages[i], size)
  }

  ghost function Started(pages: seq<Page>): seq<Page> {
    if pages == [] then [EMPTY_PAGE] else pages
  }

  ghost function Extended(pages: seq<Page>, pageId: PageId): seq<Page>
    requires pages != []
  {
    pages[|pages| - 1 := pages[|pages| - 1].(next := pageId)] + [EMPTY_PAGE]
  }

  /** Page `k` has room, be it one of the pages there were or a new last one. */
  ghost predicate RoomFound(was: seq<Page>, pages: seq<Page>, k: nat, pageId: PageId, size: nat)
    requires was != []
  {
    if k < |was| then pages == was && HasRoom(was[k], size) else pages == Extended(was, pageId) && k == |was|
  }

  /** Every row but perhaps the one at the place given is as it was. */
  ghost predicate SameTuplesBut(pages: seq<Page>, after: seq<Page>, k: int, s: int) {
    forall i, j {:trigger TupleAt(after, i, j)} :: i != k || j != s ==> TupleAt(after, i, j) == TupleAt(pages, i, j)
  }

  lemma RowStored(before: seq<Page>, found: seq<Page>, after: seq<Page>, k: nat, data: Bytes, s: nat, pageId: PageId)
    requires k < |found| && PageShape(found[k]) && SlotPos(|found[k].slots|) <= PAGE_SIZE && data != []
    requires forall i {:trigger before[i]} :: 0 <= i < |before| ==> PageShape(before[i])
    requires if k < |Started(before)| then found == Started(before) && HasRoom(found[k], |data|)
             else found == Extended(Started(before), pageId) && k == |Started(before)|
    requires NoRoomBefore(Started(before), k, |data|)
    requires if HasRoom(found[k], |data|) then s == |found[k].slots| && after == found[k := WithTuple(found[k], data)]
             else s == DB_OUT_OF_MEMORY && after == found
    ensures NoRoomBefore(before, k, |data|) && TupleAt(before, k, s) == None
    ensures TupleAt(after, k, s) == Some(data) <==> |data| <= MAX_TUPLE
    ensures SameTuplesBut(before, after, k, s)
  {
  }

  lemma NothingStored(before: seq<Page>, after: seq<Page>, size: nat)
    requires NoRoomBefore(Started(before), |before|, size) && (after == before || after == Started(before))
    ensures NoRoomBefore(before, |before|, size) && SameTuplesBut(before, after, -1, -1)
  {
  }

  /** No frame was given up or exchanged. */
  ghost predicate Keeps(frames: map<PageId, array<Byte>>, after: map<PageId, array<Byte>>) {
    forall p {:trigger frames[p]} {:trigger after[p]} :: p in frames ==> p in after && after[p] == frames[p]
  }

  lemma KeepsTrans(a: map<PageId, array<Byte>>, b: map<PageId, array<Byte>>, c: map<PageId, array<Byte>>)
    requires Keeps(a, b) && Keeps(b, c)
    ensures Keeps(a, c)
  {
  }

  class BpmHeap {
    var firstPageId: PageId
    /** The pages in the buffer pool, those of other tables among them. */
    var frames: map<PageId, array<Byte>>
    /** The page ids that bpm_new_page will hand out before it fails. */
    var unused: seq<PageId>
    ghost var chain: seq<PageId>
    /** The pages of the chain without their bytes. */
    ghost var pages: seq<Page>

    ghost predicate FramesOk()
      reads this
    {
      && PoolOk(frames, unused)
      && (forall i {:trigger chain[i]} :: 0 <= i < |chain| ==> chain[i] in frames)
    }

    ghost function ChainFrames(): set<array<Byte>>
      reads this
    {
      set p | p in chain && p in frames :: frames[p]
    }

    twostate predicate GainsOnlyNewFrames()
      reads this
    {
      forall f {:trigger f in ChainFrames()} :: f in ChainFrames() ==> f in old(ChainFrames()) || fresh(f)
    }

    /** The bytes of the pages of the chain. */
    ghost function Contents(): (bytes: seq<Bytes>)
      requires FramesOk()
      reads this, frames.Values
      ensures |bytes| == |chain|
      ensures forall i {:trigger bytes[i]} :: 0 <= i < |bytes| ==> bytes[i] == frames[chain[i]][..]
    {
      seq(|chain|, i requires 0 <= i < |chain| && FramesOk() reads this, frames.Values => frames[chain[i]][..])
    }

    ghost predicate Valid()
      reads this, frames.Values
    {
      true <==> ChainValid()
    }

    // Kept apart from Valid so that the solver does not take it to pieces at every call.
    ghost predicate ChainValid()
      reads this, frames.Values
    {
      FramesOk() && Describe(pages, Contents()) && Linked(firstPageId, chain, pages)
    }

    /** bpm_heap_init without a first page. */
    constructor (frames: map<PageId, array<Byte>>, unused: seq<PageId>)
      requires PoolOk(frames, unused)
      ensures Valid() && this.frames == frames && this.unused == unused && chain == []
    {
      this.frames, this.unused := frames, unused;
      firstPageId, chain, pages := INVALID_PAGE_ID, [], [];
    }

    /** bpm_heap_init on the first page of an existing chain. */
    constructor Open(frames: map<PageId, array<Byte>>, unused: seq<PageId>, first: PageId,
                     ghost chain: seq<PageId>, ghost pages: seq<Page>)
      requires PoolOk(frames, unused) && Linked(first, chain, pages)
      requires forall i {:trigger chain[i]} :: 0 <= i < |chain| ==>
                 chain[i] in frames && PageOk(frames[chain[i]][..]) && pages[i] == Abs(frames[chain[i]][..])
      ensures Valid() && firstPageId == first && this.chain == chain && this.pages == pages
    {
      this.frames, this.unused := frames, unused;
      firstPageId, this.chain, this.pages := first, chain, pages;
      new;
      forall i {:trigger Contents()[i]} | 0 <= i < |chain| ensures PageOk(Contents()[i]) && pages[i] == Abs(Contents()[i]) {
        assert Contents()[i] == frames[chain[i]][..];
      }
    }

    lemma PageAt(k: nat)
      requires Valid() && k < |chain|
      ensures chain[k] in frames && frames[chain[k]].Length == PAGE_SIZE && PageOk(frames[chain[k]][..])
      ensures pages[k] == Abs(frames[chain[k]][..]) && PageShape(pages[k])
      ensures NextPage(frames[chain[k]][..]) == IdAt(chain, k + 1)
    {
      assert Contents()[k] == frames[chain[k]][..];
      AbsShape(frames[chain[k]][..]);
    }

    lemma AllShaped()
      requires Valid()
      ensures forall i {:trigger pages[i]} :: 0 <= i < |pages| ==> PageShape(pages[i])
    {
      forall i {:trigger pages[i]} | 0 <= i < |pages| ensures PageShape(pages[i]) {
        PageAt(i);
      }
    }

    lemma RowIsLive(k: nat, s: nat)
      requires Valid() && TupleAt(pages, k, s).Some?
      ensures Live(pages[k], s) && |pages[k].slots| == |pages[k].tuples|
    {
      PageAt(k);
    }

    /** Writing one page of the chain changes that page only. */
    twostate lemma OnePageWritten(k: nat)
      requires old(Valid()) && k < |chain|
      requires unchanged(`frames) && unchanged(`unused) && unchanged(`chain) && unchanged(`firstPageId)
      requires forall p {:trigger frames[p]} :: p in frames && p != chain[k] ==> unchanged(frames[p])
      requires PageOk(frames[chain[k]][..]) && Abs(frames[chain[k]][..]).next == old(pages)[k].next
      requires pages == old(pages)[k := Abs(frames[chain[k]][..])]
      ensures Valid()
    {
      forall i {:trigger chain[i]} | 0 <= i < |chain| && i != k
        ensures frames[chain[i]][..] == old(frames[chain[i]][..])
      {
        assert chain[i] != chain[k];
      }
      assert Contents() == old(Contents())[k := frames[chain[k]][..]];
      OneRewritten(firstPageId, chain, old(pages), old(Contents()), k, frames[chain[k]][..]);
    }

    /** Frames outside the chain may come and go. */
    twostate lemma ChainUntouched()
      requires old(Valid()) && unchanged(`chain) && unchanged(`pages) && unchanged(`firstPageId) && PoolOk(frames, unused)
      requires forall p {:trigger old(frames)[p]} :: p in old(frames) ==>
                 p in frames && frames[p] == old(frames)[p] && unchanged(old(frames)[p])
      ensures Valid()
    {
      forall i {:trigger chain[i]} | 0 <= i < |chain|
        ensures chain[i] in frames && frames[chain[i]][..] == old(frames[chain[i]][..])
      {
        assert old(frames)[chain[i]].Length == PAGE_SIZE;
      }
      assert Contents() == old(Contents());
    }

    method Delete(rid: Rid) returns (rc: int)
      requires Valid() && (rid.page in frames ==> rid.page in chain || rid.slot == INVALID_SLOT_ID)
      modifies this`pages, if rid.page in frames then {frames[rid.page]} else {}
      ensures Valid()
      ensures if rid.page == INVALID_PAGE_ID || rid.slot == INVALID_SLOT_ID
              then rc == DB_INVALID_ARGUMENT && pages == old(pages)
              else if rid.page !in frames then rc == DB_PAGE_NOT_FOUND && pages == old(pages)
              else var k := Place(chain, rid.page);
                && pages == AfterDelete(old(pages), k, rid.slot)
                && rc == if Live(old(pages)[k], rid.slot) then DB_OK else DB_PAGE_NOT_FOUND
    {
      if rid.page == INVALID_PAGE_ID || rid.slot == INVALID_SLOT_ID {
        return DB_INVALID_ARGUMENT;
      }
      if rid.page !in frames {
        return DB_PAGE_NOT_FOUND;
      }
      ghost var k := Place(chain, rid.page);
      PageAt(k);
      rc := SlottedPage.Delete(frames[rid.page], rid.slot);
      pages := pages[k := Abs(frames[chain[k]][..])];
      OnePageWritten(k);
    }

    method Update(rid: Rid, data: Bytes) returns (rc: int)
      requires Valid() && (rid.page in frames ==> rid.page in chain || rid.slot == INVALID_SLOT_ID)
      requires |data| < 0x1_0000
      modifies this`pages, if rid.page in frames then {frames[rid.page]} else {}
      ensures Valid()
      ensures if data == [] || rid.page == INVALID_PAGE_ID || rid.slot == INVALID_SLOT_ID
              then rc == DB_INVALID_ARGUMENT && pages == old(pages)
              else if rid.page !in frames then rc == DB_PAGE_NOT_FOUND && pages == old(pages)
              else var k := Place(chain, rid.page);
                && pages == AfterUpdate(old(pages), k, rid.slot, data)
                && rc == if !Live(old(pages)[k], rid.slot) then DB_PAGE_NOT_FOUND
                         else if UpdateFits(old(pages)[k], rid.slot, |data|) then DB_OK else DB_OUT_OF_MEMORY
    {
      if data == [] {
        return DB_INVALID_ARGUMENT;
      }
      if rid.page == INVALID_PAGE_ID || rid.slot == INVALID_SLOT_ID {
        return DB_INVALID_ARGUMENT;
      }
      if rid.page !in frames {
        return DB_PAGE_NOT_FOUND;
      }
      ghost var k := Place(chain, rid.page);
      PageAt(k);
      rc := SlottedPage.Update(frames[rid.page], rid.slot, data);
      pages := pages[k := Abs(frames[chain[k]][..])];
      OnePageWritten(k);
    }

    method Get(rid: Rid) returns (rc: int, data: Bytes)
      requires Valid() && (rid.page in frames ==> rid.page in chain || rid.slot == INVALID_SLOT_ID)
      ensures if rid.page == INVALID_PAGE_ID || rid.slot == INVALID_SLOT_ID then rc == DB_INVALID_ARGUMENT
              else if rid.page !in frames then rc == DB_PAGE_NOT_FOUND
              else var k := Place(chain, rid.page);
                if TupleAt(pages, k, rid.slot).Some? then rc == DB_OK && TupleAt(pages, k, rid.slot) == Some(data)
                else rc == DB_PAGE_NOT_FOUND
    {
      if rid.page == INVALID_PAGE_ID || rid.slot == INVALID_SLOT_ID {
        return DB_INVALID_ARGUMENT, [];
      }
      if rid.page !in frames {
        return DB_PAGE_NOT_FOUND, [];
      }
      ghost var k := Place(chain, rid.page);
      PageAt(k);
      rc, data := SlottedPage.Get(frames[rid.page], rid.slot);
    }

    /** bpm_new_page and slotted_page_init: the new page is not yet part of the chain. */
    method NewPage() returns (pageId: PageId)
      requires Valid() && unused != []
      modifies this`frames, this`unused
      ensures Valid() && unused == old(unused)[1..]
      ensures pageId == old(unused)[0] && pageId in frames && pageId !in old(frames) && 0 <= pageId < 0x8000_0000
      ensures fresh(frames[pageId]) && frames == old(frames)[pageId := frames[pageId]]
      ensures PageOk(frames[pageId][..]) && Abs(frames[pageId][..]) == EMPTY_PAGE
    {
      pageId := unused[0];
      var frame := new Byte[PAGE_SIZE];
      SlottedPage.Init(frame, pageId);
      FrameAdded(frames, unused, frame);
      unused := unused[1..];
      frames := frames[pageId := frame];
      ChainUntouched();
    }

    method EnsureFirstPage() returns (rc: int)
      requires Valid()
      modifies this
      ensures Valid() && Keeps(old(frames), frames) && GainsOnlyNewFrames() && old(chain) <= chain
      ensures rc == if old(chain == [] && unused == []) then DB_OUT_OF_MEMORY else DB_OK
      ensures rc == DB_OK ==> chain != [] && pages == Started(old(pages)) && |unused| >= |old(unused)| - 1
      ensures rc != DB_OK ==> pages == old(pages)
    {
      IdAtEnd(firstPageId, chain, pages, 0);
      if firstPageId != INVALID_PAGE_ID {
        return DB_OK;
      }
      if unused == [] {
        return DB_OUT_OF_MEMORY;
      }
      rc := DB_OK;
      var pageId := NewPage();
      firstPageId := pageId;
      chain, pages := [pageId], [EMPTY_PAGE];
      assert Contents() == [frames[pageId][..]];
    }

    method LastPage() returns (last: PageId)
      requires Valid() && chain != []
      ensures last == chain[|chain| - 1]
    {
      last := firstPageId;
      ghost var k := 0;
      while true
        invariant k < |chain| && last == chain[k]
        decreases |chain| - k
      {
        PageAt(k);
        IdAtEnd(firstPageId, chain, pages, k + 1);
        var next := ReadI32(frames[last], NEXT_PAGE);
        if next == INVALID_PAGE_ID {
          return;
        }
        last := next;
        k := k + 1;
      }
    }

    /** The new last page: the old last one's next link leads to it. */
    method Append() returns (pageId: PageId)
      requires Valid() && unused != [] && chain != []
      modifies this, ChainFrames()
      ensures Valid() && chain == old(chain) + [pageId] && Keeps(old(frames), frames) && GainsOnlyNewFrames()
      ensures pages == Extended(old(pages), pageId)
    {
      pageId := NewPage();
      var last := LastPage();
      assert frames[last] in ChainFrames();
      Link(last, pageId);
    }

    method Link(last: PageId, pageId: PageId)
      requires Valid() && chain != [] && last == chain[|chain| - 1] && pageId in frames && pageId !in chain
      requires 0 <= pageId < 0x8000_0000 && PageOk(frames[pageId][..]) && Abs(frames[pageId][..]) == EMPTY_PAGE
      modifies this`chain, this`pages, frames[last]
      ensures Valid() && chain == old(chain) + [pageId]
      ensures pages == Extended(old(pages), pageId)
    {
      StoreLink(last, pageId);
      ghost var bytes := Contents();
      chain, pages := chain + [pageId], Extended(pages, pageId);
      assert Contents() == bytes + [frames[pageId][..]];
      OneAppended(firstPageId, old(chain), old(pages), old(Contents()), pageId, Contents());
    }

    method StoreLink(last: PageId, pageId: PageId)
      requires Valid() && chain != [] && last == chain[|chain| - 1] && pageId in frames && pageId !in chain
      requires 0 <= pageId < 0x8000_0000
      modifies frames[last]
      ensures FramesOk() && frames[pageId][..] == old(frames[pageId][..])
      ensures forall i {:trigger Contents()[i]} :: 0 <= i < |chain| - 1 ==> Contents()[i] == old(Contents())[i]
      ensures PageOk(Contents()[|chain| - 1]) && Abs(Contents()[|chain| - 1]) == pages[|chain| - 1].(next := pageId)
    {
      PageAt(|chain| - 1);
      SlottedPage.SetNextPage(frames[last], pageId);
      assert frames[pageId][..] == old(frames[pageId][..]);
      forall i {:trigger chain[i]} | 0 <= i < |chain| - 1 ensures frames[chain[i]][..] == old(frames[chain[i]][..]) {
        assert chain[i] != last;
      }
    }

    /** First fit; the chain grows by one page if none fits. */
    method FindPageWithSpace(size: nat) returns (rc: int, pageId: PageId, ghost k: nat)
      requires Valid()
      modifies this, ChainFrames()
      ensures Valid() && old(chain) <= chain && Keeps(old(frames), frames) && GainsOnlyNewFrames()
      ensures rc == DB_OK || (rc == DB_OUT_OF_MEMORY && |old(unused)| <= 1)
      ensures NoRoomBefore(Started(old(pages)), k, size)
      ensures rc == DB_OK ==> k < |chain| && pageId == chain[k] && RoomFound(Started(old(pages)), pages, k, pageId, size)
      ensures rc != DB_OK ==> k >= |old(pages)| && (pages == old(pages) || pages == Started(old(pages)))
    {
      rc := EnsureFirstPage();
      if rc != DB_OK {
        return rc, INVALID_PAGE_ID, 0;
      }
      ghost var kept := frames;
      rc, pageId, k := SearchOrAppend(size);
      KeepsTrans(old(frames), kept, frames);
    }

    method SearchOrAppend(size: nat) returns (rc: int, pageId: PageId, ghost k: nat)
      requires Valid() && chain != []
      modifies this, ChainFrames()
      ensures Valid() && old(chain) <= chain && Keeps(old(frames), frames) && GainsOnlyNewFrames()
      ensures rc == DB_OK || (rc == DB_OUT_OF_MEMORY && old(unused) == [])
      ensures NoRoomBefore(old(pages), k, size)
      ensures rc == DB_OK ==> k < |chain| && pageId == chain[k] && RoomFound(old(pages), pages, k, pageId, size)
      ensures rc != DB_OK ==> k == |old(pages)| && pages == old(pages)
    {
      pageId, k := SearchChain(size);
      rc := DB_OK;
      if pageId == INVALID_PAGE_ID {
        if unused == [] {
          return DB_OUT_OF_MEMORY, INVALID_PAGE_ID, k;
        }
        pageId := Append();
      }
    }

    method SearchChain(size: nat) returns (pageId: PageId, ghost k: nat)
      requires Valid()
      ensures k <= |chain| && pageId == IdAt(chain, k) && (pageId == INVALID_PAGE_ID <==> k == |chain|)
      ensures NoRoomBefore(pages, k, size) && (k < |chain| ==> HasRoom(pages[k], size))
    {
      pageId, k := firstPageId, 0;
      IdAtEnd(firstPageId, chain, pages, 0);
      while pageId != INVALID_PAGE_ID
        invariant k <= |chain| && pageId == IdAt(chain, k) && (pageId == INVALID_PAGE_ID <==> k == |chain|)
        invariant NoRoomBefore(pages, k, size)
        decreases |chain| - k
      {
        PageAt(k);
        IdAtEnd(firstPageId, chain, pages, k + 1);
        var free := SlottedPage.FreeSpaceOf(frames[pageId]);
        if free >= size + SLOT_SIZE {
          return;
        }
        pageId := ReadI32(frames[pageId], NEXT_PAGE);
        k := k + 1;
      }
    }

    method StoreIn(pageId: PageId, ghost k: nat, data: Bytes) returns (slot: int)
      requires Valid() && k < |chain| && pageId == chain[k] && data != [] && |data| < 0x1_0000
      modifies this`pages, frames[pageId]
      ensures Valid()
      ensures if HasRoom(old(pages)[k], |data|)
              then slot == |old(pages)[k].slots| && pages == old(pages)[k := WithTuple(old(pages)[k], data)]
              else slot == DB_OUT_OF_MEMORY && pages == old(pages)
    {
      PageAt(k);
      slot := SlottedPage.Insert(frames[pageId], data);
      pages := pages[k := Abs(frames[chain[k]][..])];
      OnePageWritten(k);
    }

    /** bpm_heap_insert.  The row is stored and found under the returned rid exactly if the tuple fits an empty
        page; a longer one is reported as stored too, because the page's error code is not negative.  Without
        room and without a new page nothing is stored. */
    method Insert(data: Bytes) returns (rc: int, rid: Rid, ghost k: nat)
      requires Valid() && |data| < 0x1_0000
      modifies this, ChainFrames()
      ensures Valid() && old(chain) <= chain && Keeps(old(frames), frames) && GainsOnlyNewFrames()
      ensures data == [] <==> rc == DB_INVALID_ARGUMENT
      ensures data == [] ==> pages == old(pages)
      ensures data != [] && rc != DB_OK ==>
                && rc == DB_OUT_OF_MEMORY && |old(unused)| <= 1 && NoRoomBefore(old(pages), |old(pages)|, |data|)
                && SameTuplesBut(old(pages), pages, -1, -1)
      ensures rc == DB_OK ==>
                && k < |chain| && rid.page == chain[k] && NoRoomBefore(old(pages), k, |data|)
                && TupleAt(old(pages), k, rid.slot) == None
                && (TupleAt(pages, k, rid.slot) == Some(data) <==> |data| <= MAX_TUPLE)
                && SameTuplesBut(old(pages), pages, k, rid.slot)
    {
      k := 0;
      rid := Rid(INVALID_PAGE_ID, INVALID_SLOT_ID);
      if data == [] {
        return DB_INVALID_ARGUMENT, rid, 0;
      }
      ghost var before := pages;
      AllShaped();
      var pageId;
      rc, pageId, k := FindPageWithSpace(|data|);
      if rc != DB_OK {
        NothingStored(before, pages, |data|);
        return;
      }
      ghost var found := pages;
      PageAt(k);
      assert frames[pageId] in ChainFrames();
      var slotId := StoreIn(pageId, k, data);
      if slotId < 0 {
        return slotId, rid, k;
      }
      RowStored(before, found, pages, k, data, slotId, pageId);
      return DB_OK, Rid(pageId, slotId), k;
    }
  }
}
