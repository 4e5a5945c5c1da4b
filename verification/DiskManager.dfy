/** The page allocator and page I/O (src/storage/disk_manager.c).  The file is a map from page numbers to
    pages; free pages form a list through their first four bytes. */
module DiskManager {
  import opened PageBytes

  type PageId = int

  const INVALID_PAGE_ID: int := -1
  const DB_OK: int := 0
  const DB_PAGE_NOT_FOUND: int := 1002

  const ZERO_PAGE: Bytes := seq(PAGE_SIZE, _ => 0)

  ghost predicate Distinct(chain: seq<PageId>) {
    forall i, j {:trigger chain[i], chain[j]} :: 0 <= i < j < |chain| ==> chain[i] != chain[j]
  }

  ghost function IdAt(chain: seq<PageId>, i: nat): PageId {
    if i < |chain| then chain[i] else INVALID_PAGE_ID
  }

  /** Every page but the header page is in the file. */
  ghost predicate FileOk(file: map<PageId, Bytes>, pageCount: int) {
    && 1 <= pageCount < 0x8000_0000
    && forall p {:trigger file[p]} {:trigger p in file} :: 1 <= p < pageCount ==> p in file && |file[p]| == PAGE_SIZE
  }

  /** `chain` is the list of free pages from `head` on: it visits no page twice and ends. */
  ghost predicate IsFreeList(file: map<PageId, Bytes>, pageCount: int, head: PageId, chain: seq<PageId>)
    requires FileOk(file, pageCount)
  {
    && head == IdAt(chain, 0) && Distinct(chain)
    && (forall i {:trigger chain[i]} :: 0 <= i < |chain| ==> 1 <= chain[i] < pageCount)
    && (forall i {:trigger chain[i]} :: 0 <= i < |chain| ==> I32At(file[chain[i]], 0) == IdAt(chain, i + 1))
  }

  /** The free pages still form a list. */
  ghost predicate HasFreeList(file: map<PageId, Bytes>, pageCount: int, head: PageId)
    requires FileOk(file, pageCount)
  {
    exists chain :: IsFreeList(file, pageCount, head, chain)
  }

  /** A page with the link in its first four bytes. */
  ghost predicate Relinked(page: Bytes, next: PageId, r: Bytes) {
    |page| == |r| == PAGE_SIZE && I32At(r, 0) == next && Agree(page, r, 4, PAGE_SIZE)
  }

  lemma Freed(file: map<PageId, Bytes>, pageCount: int, head: PageId, chain: seq<PageId>, p: PageId, r: Bytes)
    requires FileOk(file, pageCount) && IsFreeList(file, pageCount, head, chain)
    requires 1 <= p < pageCount && p !in chain && |r| == PAGE_SIZE && I32At(r, 0) == head
    ensures FileOk(file[p := r], pageCount) && IsFreeList(file[p := r], pageCount, p, [p] + chain)
  {
    var f, c := file[p := r], [p] + chain;
    forall i {:trigger c[i]} | 0 <= i < |c| ensures I32At(f[c[i]], 0) == IdAt(c, i + 1) {
      if i > 0 {
        assert c[i] == chain[i - 1];
      }
    }
    forall i, j {:trigger c[i], c[j]} | 0 <= i < j < |c| ensures c[i] != c[j] {
      assert c[j] == chain[j - 1] && (i > 0 ==> c[i] == chain[i - 1]);
    }
  }

  /** Freeing a page that is free already closes the list into a cycle: no list of free pages is left. */
  lemma FreedTwice(file: map<PageId, Bytes>, pageCount: int, head: PageId, chain: seq<PageId>, p: PageId, r: Bytes,
                   other: seq<PageId>)
    requires FileOk(file, pageCount) && IsFreeList(file, pageCount, head, chain) && p in chain
    requires |r| == PAGE_SIZE && I32At(r, 0) == head
    ensures FileOk(file[p := r], pageCount) && !IsFreeList(file[p := r], pageCount, p, other)
  {
    var f := file[p := r];
    if IsFreeList(f, pageCount, p, other) {
      var j :| 0 <= j < |chain| && chain[j] == p;
      assert other[0] == p;
      FollowsChain(file, pageCount, head, chain, p, r, other, j);
    }
  }

  lemma ListSurvives(file: map<PageId, Bytes>, pageCount: int, head: PageId, chain: seq<PageId>, p: PageId, r: Bytes)
    requires FileOk(file, pageCount) && IsFreeList(file, pageCount, head, chain)
    requires 1 <= p < pageCount && |r| == PAGE_SIZE && I32At(r, 0) == head
    ensures FileOk(file[p := r], pageCount)
    ensures HasFreeList(file[p := r], pageCount, p) <==> p !in chain
    ensures p !in chain ==> IsFreeList(file[p := r], pageCount, p, [p] + chain)
  {
    var f := file[p := r];
    if p in chain {
      forall c ensures !IsFreeList(f, pageCount, p, c) {
        FreedTwice(file, pageCount, head, chain, p, r, c);
      }
    } else {
      Freed(file, pageCount, head, chain, p, r);
    }
  }

  /** The page with its first four bytes overwritten. */
  method WithLink(page: Bytes, next: PageId) returns (r: Bytes)
    requires |page| == PAGE_SIZE && -0x8000_0000 <= next < 0x8000_0000
    ensures Relinked(page, next, r)
  {
    var buffer := new Byte[PAGE_SIZE](i requires 0 <= i < |page| => page[i]);
    assert buffer[..] == page;
    StoreI32(buffer, 0, next);
    r := buffer[..];
  }

  lemma {:induction false} FollowsChain(file: map<PageId, Bytes>, pageCount: int, head: PageId, chain: seq<PageId>,
                                        p: PageId, r: Bytes, other: seq<PageId>, j: nat)
    requires FileOk(file, pageCount) && IsFreeList(file, pageCount, head, chain)
    requires |r| == PAGE_SIZE && I32At(r, 0) == head && j < |chain| && p in chain && p !in chain[..j]
    requires FileOk(file[p := r], pageCount) && IsFreeList(file[p := r], pageCount, p, other)
    ensures j + 1 < |other| && other[j + 1] == chain[j]
    decreases j
  {
    if j == 0 {
      assert other[0] == p && file[p := r][other[0]] == r;
      assert chain[0] == head >= 0;
    } else {
      FollowsChain(file, pageCount, head, chain, p, r, other, j - 1);
      assert chain[j - 1] in chain[..j];
      assert other[j] == chain[j - 1] && file[p := r][other[j]] == file[chain[j - 1]];
      assert chain[j] >= 0;
    }
  }

  class DiskManager {
    var file: map<PageId, Bytes>
    var pageCount: int
    var freeListHead: PageId
    /** What page 0 records. */
    var savedCount: int
    var savedHead: PageId
    ghost var freeList: seq<PageId>

    ghost predicate Valid()
      reads this
    {
      && FileOk(file, pageCount) && IsFreeList(file, pageCount, freeListHead, freeList)
      && savedCount == pageCount && savedHead == freeListHead
    }

    /** A page in use: not the header page and not free. */
    ghost predicate Allocated(p: PageId)
      reads `pageCount, `freeList
    {
      1 <= p < pageCount && p !in freeList
    }

    /** disk_manager_open, new file. */
    constructor ()
      ensures Valid() && pageCount == 1 && forall p :: !Allocated(p)
    {
      file, pageCount, freeListHead, freeList := map[], 1, INVALID_PAGE_ID, [];
      savedCount, savedHead := 1, INVALID_PAGE_ID;
    }

    /** disk_manager_open, existing file: the header page restores the allocator. */
    constructor Reopen(file: map<PageId, Bytes>, savedCount: int, savedHead: PageId, ghost chain: seq<PageId>)
      requires FileOk(file, savedCount) && IsFreeList(file, savedCount, savedHead, chain)
      ensures Valid() && this.file == file && freeList == chain && pageCount == savedCount
    {
      this.file, this.savedCount, this.savedHead := file, savedCount, savedHead;
      pageCount, freeListHead := savedCount, savedHead;
      freeList := chain;
    }

    method FlushHeader()
      modifies this`savedCount, this`savedHead
      ensures savedCount == pageCount && savedHead == freeListHead
    {
      savedCount, savedHead := pageCount, freeListHead;
    }

    /** disk_manager_allocate_page: a page that was not in use, now zeroed and in use. */
    method Allocate() returns (p: PageId)
      requires Valid() && (freeListHead == INVALID_PAGE_ID ==> pageCount < 0x7fff_ffff)
      modifies this
      ensures Valid() && 1 <= p && !old(Allocated(p)) && Allocated(p)
      ensures forall q :: q != p ==> Allocated(q) == old(Allocated(q))
      ensures file == old(file)[p := ZERO_PAGE]
      ensures freeList == (if old(freeList) == [] then [] else old(freeList)[1..])
      ensures pageCount == if old(freeList) == [] then old(pageCount) + 1 else old(pageCount)
    {
      if freeListHead != INVALID_PAGE_ID {
        p := freeListHead;
        freeListHead := I32Of(file[p]);
        file := file[p := ZERO_PAGE];
        Taken(old(file), pageCount, p, freeList, file);
        freeList := freeList[1..];
      } else {
        p := pageCount;
        file := file[p := ZERO_PAGE];
        pageCount := pageCount + 1;
      }
      FlushHeader();
    }

    /** disk_manager_deallocate_page.  The list of free pages survives exactly if the page was not on it. */
    method Deallocate(p: PageId) returns (rc: int)
      requires Valid()
      modifies this
      ensures rc == if 1 <= p < pageCount then DB_OK else DB_PAGE_NOT_FOUND
      ensures pageCount == old(pageCount) && FileOk(file, pageCount)
      ensures rc != DB_OK ==> Valid() && file == old(file) && freeList == old(freeList)
      ensures rc == DB_OK ==>
                && Relinked(old(file)[p], old(freeListHead), file[p]) && file == old(file)[p := file[p]]
                && freeListHead == p
      ensures rc == DB_OK ==> (HasFreeList(file, pageCount, freeListHead) <==> p !in old(freeList))
      ensures rc == DB_OK && p !in old(freeList) ==> Valid() && freeList == [p] + old(freeList)
    {
      if p <= 0 || p >= pageCount {
        return DB_PAGE_NOT_FOUND;
      }
      var page := WithLink(file[p], freeListHead);
      ListSurvives(file, pageCount, freeListHead, freeList, p, page);
      file := file[p := page];
      freeListHead := p;
      freeList := [p] + freeList;
      FlushHeader();
      rc := DB_OK;
    }

    /** What the header page holds is left open. */
    method Read(p: PageId) returns (rc: int, data: Bytes)
      requires Valid()
      ensures rc == if 0 <= p < pageCount then DB_OK else DB_PAGE_NOT_FOUND
      ensures rc == DB_OK ==> |data| == PAGE_SIZE && (p != 0 ==> data == file[p])
    {
      if p < 0 || p >= pageCount {
        return DB_PAGE_NOT_FOUND, [];
      }
      rc := DB_OK;
      if p == 0 {
        assert |ZERO_PAGE| == PAGE_SIZE;
        data :| |data| == PAGE_SIZE;
      } else {
        data := file[p];
      }
    }

    /** Writing a page in use leaves the free pages alone. */
    method Write(p: PageId, data: Bytes) returns (rc: int)
      requires Valid() && p != 0 && p !in freeList && |data| == PAGE_SIZE
      modifies this`file
      ensures Valid() && rc == if 1 <= p < pageCount then DB_OK else DB_PAGE_NOT_FOUND
      ensures file == if rc == DB_OK then old(file)[p := data] else old(file)
    {
      if p < 0 || p >= pageCount {
        return DB_PAGE_NOT_FOUND;
      }
      file := file[p := data];
      assert forall i {:trigger freeList[i]} :: 0 <= i < |freeList| ==> file[freeList[i]] == old(file)[freeList[i]];
      rc := DB_OK;
    }
  }

  function I32Of(page: Bytes): PageId
    requires |page| == PAGE_SIZE
  {
    I32At(page, 0)
  }

  lemma Taken(file: map<PageId, Bytes>, pageCount: int, p: PageId, chain: seq<PageId>, after: map<PageId, Bytes>)
    requires FileOk(file, pageCount) && IsFreeList(file, pageCount, p, chain) && p != INVALID_PAGE_ID
    requires after == file[p := ZERO_PAGE]
    ensures chain != [] && FileOk(after, pageCount)
    ensures IsFreeList(after, pageCount, I32At(file[p], 0), chain[1..])
    ensures p !in chain[1..] && forall q :: q != p ==> (q in chain <==> q in chain[1..])
  {
    var c := chain[1..];
    forall i {:trigger c[i]} | 0 <= i < |c| ensures I32At(after[c[i]], 0) == IdAt(c, i + 1) && 1 <= c[i] < pageCount {
      assert c[i] == chain[i + 1];
    }
    forall i, j {:trigger c[i], c[j]} | 0 <= i < j < |c| ensures c[i] != c[j] {
      assert c[i] == chain[i + 1] && c[j] == chain[j + 1];
    }
    assert chain == [p] + c;
  }
}
