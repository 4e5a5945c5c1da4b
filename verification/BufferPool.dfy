/** The buffer pool (src/buffer/buffer_pool_manager.c): a write-back cache of disk pages. */
module BufferPool {
  import opened Wrappers
  import opened PageBytes
  import D = DiskManager
  import L = LruReplacer

  type PageId = D.PageId
  type FrameId = L.FrameId

  const NO_PAGE: int := D.INVALID_PAGE_ID

  /** page_t. */
  datatype Frame = Frame(data: Bytes, pageId: PageId, pinCount: nat, dirty: bool)

  /** Page table and frames are inverse to each other. */
  ghost predicate TableOk(frames: seq<Frame>, table: map<PageId, FrameId>) {
    && (forall p {:trigger table[p]} :: p in table ==> p != NO_PAGE && table[p] < |frames| && frames[table[p]].pageId == p)
    && (forall f: FrameId {:trigger frames[f]} :: f < |frames| && frames[f].pageId != NO_PAGE ==>
          frames[f].pageId in table && table[frames[f].pageId] == f)
  }

  /** The free list holds exactly the frames without a page, but for those held by the running operation. */
  ghost predicate FreeOk(frames: seq<Frame>, free: seq<FrameId>, held: set<FrameId>) {
    && L.Distinct(free)
    && (forall i {:trigger free[i]} :: 0 <= i < |free| ==>
          free[i] < |frames| && free[i] !in held && frames[free[i]].pageId == NO_PAGE)
    && (forall f: FrameId {:trigger frames[f]} :: f < |frames| && frames[f].pageId == NO_PAGE ==>
          frames[f].pinCount == 0 && !frames[f].dirty && (f in free || f in held))
    && (forall f {:trigger f in held} :: f in held ==> f < |frames| && frames[f].pageId == NO_PAGE)
  }

  /** The replacer holds exactly the resident frames nobody has pinned. */
  ghost predicate IdleOk(frames: seq<Frame>, idle: set<FrameId>) {
    forall f: FrameId {:trigger f in idle} {:trigger frames[f]} ::
      f in idle <==> f < |frames| && frames[f].pageId != NO_PAGE && frames[f].pinCount == 0
  }

  /** `touched` frames were written to by a client that has not yet unpinned them as dirty.  Every other clean
      frame equals its page on disk. */
  ghost predicate CleanOk(frames: seq<Frame>, touched: set<FrameId>, file: map<PageId, Bytes>) {
    && (forall f: FrameId {:trigger frames[f]} :: f < |frames| && frames[f].pageId != NO_PAGE ==>
          && |frames[f].data| == PAGE_SIZE && frames[f].pageId in file
          && (frames[f].dirty || f in touched || frames[f].data == file[frames[f].pageId]))
    && (forall f {:trigger f in touched} :: f in touched ==>
          f < |frames| && frames[f].pageId != NO_PAGE && (frames[f].pinCount > 0 || frames[f].dirty))
  }

  ghost predicate Sound(frames: seq<Frame>, table: map<PageId, FrameId>, free: seq<FrameId>, held: set<FrameId>,
                        idle: set<FrameId>, touched: set<FrameId>, file: map<PageId, Bytes>) {
    && TableOk(frames, table) && FreeOk(frames, free, held) && IdleOk(frames, idle) && CleanOk(frames, touched, file)
  }

  /** "Frame contents if resident, else disk." */
  ghost function Logical(frames: seq<Frame>, table: map<PageId, FrameId>, file: map<PageId, Bytes>, p: PageId): Bytes {
    if p in table && table[p] < |frames| then frames[table[p]].data
    else if p in file then file[p] else []
  }

  ghost predicate OthersSame(was: seq<Frame>, now: seq<Frame>, f: FrameId) {
    && |now| == |was|
    && forall g: FrameId {:trigger now[g]} :: g < |now| && g != f ==> now[g] == was[g]
  }

  ghost predicate SubTable(now: map<PageId, FrameId>, was: map<PageId, FrameId>, p: PageId) {
    forall q {:trigger q in now} :: q in now && q != p ==> q in was && now[q] == was[q]
  }

  // ---------------------------------------------------------------------------------------------
  // The single changes

  /** A frame taken from the free list. */
  lemma Taken(frames: seq<Frame>, free: seq<FrameId>)
    requires FreeOk(frames, free, {}) && free != []
    ensures FreeOk(frames, free[1..], {free[0]})
  {
    var r := free[1..];
    forall f: FrameId | f < |frames| && frames[f].pageId == NO_PAGE ensures f in r || f == free[0] {
      assert f in free;
    }
    assert forall i {:trigger r[i]} :: 0 <= i < |r| ==> r[i] == free[i + 1];
  }

  /** A frame given back. */
  lemma GivenBack(frames: seq<Frame>, free: seq<FrameId>, f: FrameId)
    requires FreeOk(frames, free, {f})
    ensures FreeOk(frames, free + [f], {})
  {
    var r := free + [f];
    assert f in {f};
    assert forall g {:trigger g in r} :: g in free ==> g in r;
    assert r[|free|] == f;
  }

  function Emptied(frame: Frame): Frame { Frame(frame.data, NO_PAGE, 0, false) }

  /** A clean page nobody uses leaves its frame. */
  lemma Evicted(frames: seq<Frame>, table: map<PageId, FrameId>, idle: set<FrameId>, touched: set<FrameId>,
                file: map<PageId, Bytes>, f: FrameId)
    requires Sound(frames, table, [], {}, idle, touched, file) && f in idle && !frames[f].dirty
    ensures Sound(frames[f := Emptied(frames[f])], table - {frames[f].pageId}, [], {f}, idle - {f}, touched, file)
    ensures forall p {:trigger Logical(frames, table, file, p)} ::
              Logical(frames[f := Emptied(frames[f])], table - {frames[f].pageId}, file, p) == Logical(frames, table, file, p)
  {
  }

  /** A resident page written back to disk. */
  lemma WrittenBack(frames: seq<Frame>, table: map<PageId, FrameId>, free: seq<FrameId>, held: set<FrameId>, idle: set<FrameId>,
                    touched: set<FrameId>, file: map<PageId, Bytes>, f: FrameId)
    requires Sound(frames, table, free, held, idle, touched, file) && f < |frames| && frames[f].pageId != NO_PAGE
    ensures Sound(frames[f := frames[f].(dirty := false)], table, free, held, idle, touched - {f}, file[frames[f].pageId := frames[f].data])
    ensures forall p {:trigger Logical(frames, table, file, p)} ::
              Logical(frames[f := frames[f].(dirty := false)], table, file[frames[f].pageId := frames[f].data], p) == Logical(frames, table, file, p)
  {
  }

  /** A page read into the frame that is held. */
  lemma Loaded(frames: seq<Frame>, table: map<PageId, FrameId>, free: seq<FrameId>, idle: set<FrameId>, touched: set<FrameId>,
               file: map<PageId, Bytes>, f: FrameId, p: PageId)
    requires Sound(frames, table, free, {f}, idle, touched, file) && f < |frames|
    requires p != NO_PAGE && p !in table && p in file && |file[p]| == PAGE_SIZE
    ensures Sound(frames[f := Frame(file[p], p, 1, false)], table[p := f], free, {}, idle, touched, file)
    ensures forall q {:trigger Logical(frames, table, file, q)} ::
              Logical(frames[f := Frame(file[p], p, 1, false)], table[p := f], file, q) == Logical(frames, table, file, q)
  {
    assert f in {f};
  }

  /** One more user of a resident page. */
  lemma Pinned(frames: seq<Frame>, table: map<PageId, FrameId>, free: seq<FrameId>, idle: set<FrameId>, touched: set<FrameId>,
               file: map<PageId, Bytes>, f: FrameId)
    requires Sound(frames, table, free, {}, idle, touched, file) && f < |frames| && frames[f].pageId != NO_PAGE
    ensures var r := frames[f := frames[f].(pinCount := frames[f].pinCount + 1)];
            Sound(r, table, free, {}, idle - {f}, touched, file)
    ensures forall p {:trigger Logical(frames, table, file, p)} ::
              Logical(frames[f := frames[f].(pinCount := frames[f].pinCount + 1)], table, file, p) == Logical(frames, table, file, p)
  {
  }

  /** One user less.  Who wrote to the page has to say so. */
  lemma Unpinned(frames: seq<Frame>, table: map<PageId, FrameId>, free: seq<FrameId>, idle: set<FrameId>, touched: set<FrameId>,
                 file: map<PageId, Bytes>, f: FrameId, dirty: bool)
    requires Sound(frames, table, free, {}, idle, touched, file) && f < |frames|
    requires frames[f].pageId != NO_PAGE && frames[f].pinCount > 0
    requires f in touched && frames[f].pinCount == 1 ==> dirty || frames[f].dirty
    ensures var r := frames[f := frames[f].(pinCount := frames[f].pinCount - 1, dirty := frames[f].dirty || dirty)];
            && Sound(r, table, free, {}, if frames[f].pinCount == 1 then idle + {f} else idle, touched, file)
            && forall p {:trigger Logical(frames, table, file, p)} :: Logical(r, table, file, p) == Logical(frames, table, file, p)
  {
  }

  /** A client writes to a page it has pinned. */
  lemma Written(frames: seq<Frame>, table: map<PageId, FrameId>, free: seq<FrameId>, idle: set<FrameId>, touched: set<FrameId>,
                file: map<PageId, Bytes>, f: FrameId, data: Bytes)
    requires Sound(frames, table, free, {}, idle, touched, file) && f < |frames|
    requires frames[f].pageId != NO_PAGE && frames[f].pinCount > 0 && |data| == PAGE_SIZE
    ensures var r := frames[f := frames[f].(data := data)];
            && Sound(r, table, free, {}, idle, touched + {f}, file)
            && Logical(r, table, file, frames[f].pageId) == data
            && forall p {:trigger Logical(frames, table, file, p)} ::
                 p != frames[f].pageId ==> Logical(r, table, file, p) == Logical(frames, table, file, p)
  {
    assert frames[f].pageId in table && table[frames[f].pageId] == f;
  }

  /** A page that is not resident changes on disk. */
  lemma Elsewhere(frames: seq<Frame>, table: map<PageId, FrameId>, free: seq<FrameId>, held: set<FrameId>, idle: set<FrameId>,
                  touched: set<FrameId>, file: map<PageId, Bytes>, p: PageId, data: Bytes)
    requires Sound(frames, table, free, held, idle, touched, file) && p !in table
    ensures Sound(frames, table, free, held, idle, touched, file[p := data])
    ensures Logical(frames, table, file[p := data], p) == data
    ensures forall q {:trigger Logical(frames, table, file, q)} ::
              q != p ==> Logical(frames, table, file[p := data], q) == Logical(frames, table, file, q)
  {
  }

  class BufferPool {
    /** What evict_page does with its victim.  The code puts it on the free list and hands it to its caller as
        well; design.md, section 6.4, only hands it on. */
    const requeuesVictim: bool
    const pages: array<Frame>
    const replacer: L.LruReplacer
    const disk: D.DiskManager
    var table: map<PageId, FrameId>
    var freeList: seq<FrameId>
    ghost var touched: set<FrameId>
    /** What the array holds. */
    ghost var frames: seq<Frame>

    /** All is well but for the frames in `held` and with `free` for the free list. */
    ghost predicate Holds(free: seq<FrameId>, held: set<FrameId>)
      reads this, pages, replacer, disk
    {
      true <==> Agrees(free, held)
    }

    // Kept apart from Holds so that the solver does not take it to pieces at every call.
    ghost predicate Agrees(free: seq<FrameId>, held: set<FrameId>)
      reads this, pages, replacer, disk
    {
      && frames == pages[..] && replacer.Valid() && replacer.hot == [] && disk.Valid()
      && Sound(frames, table, free, held, replacer.frameMap.Keys, touched, disk.file)
      && forall p {:trigger p in table} :: p in table ==> disk.Allocated(p)
    }

    ghost predicate Valid()
      reads this, pages, replacer, disk
    {
      Holds(freeList, {})
    }

    /** What holds even of a pool that a requeued victim has broken. */
    ghost predicate Intact()
      reads this, pages, disk
    {
      frames == pages[..] && disk.Valid()
    }

    ghost function Contents(p: PageId): Bytes
      reads this`frames, this`table, disk`file
    {
      Logical(frames, table, disk.file, p)
    }

    constructor (poolSize: nat, disk: D.DiskManager, requeuesVictim: bool)
      requires disk.Valid()
      ensures Valid() && this.disk == disk && this.requeuesVictim == requeuesVictim && pages.Length == poolSize
      ensures fresh(pages) && fresh(replacer) && table == map[]
    {
      this.disk, this.requeuesVictim := disk, requeuesVictim;
      pages := new Frame[poolSize](_ => Frame([], NO_PAGE, 0, false));
      replacer := new L.LruReplacer();
      table, touched := map[], {};
      var free: seq<FrameId> := [];
      for i := 0 to poolSize
        invariant free == seq(i, j => j)
      {
        free := free + [i];
      }
      freeList := free;
      frames := seq(poolSize, _ => Frame([], NO_PAGE, 0, false));
      new;
      assert frames == pages[..];
      forall f: FrameId | f < poolSize ensures f in freeList {
        var g := freeList[f];
        assert g in freeList;
      }
    }

    /** One frame of the array is assigned. */
    method Set(f: FrameId, frame: Frame)
      requires f < pages.Length && frames == pages[..]
      modifies this`frames, pages
      ensures frames == old(frames)[f := frame] == pages[..]
    {
      pages[f] := frame;
      frames := frames[f := frame];
    }

    method WriteBack(f: FrameId, ghost free: seq<FrameId>, ghost held: set<FrameId>, ghost idle: set<FrameId>)
      requires frames == pages[..] && disk.Valid() && Sound(frames, table, free, held, idle, touched, disk.file)
      requires f < pages.Length && frames[f].pageId != NO_PAGE && disk.Allocated(frames[f].pageId)
      modifies this`frames, this`touched, pages, disk`file
      ensures frames == pages[..] && disk.Valid() && Sound(frames, table, free, held, idle, touched, disk.file)
      ensures frames == old(frames)[f := old(frames)[f].(dirty := false)] && touched == old(touched) - {f}
      ensures disk.file == old(disk.file)[frames[f].pageId := frames[f].data]
      ensures forall p {:trigger Contents(p)} :: Contents(p) == old(Contents(p))
    {
      var page := pages[f];
      WrittenBack(frames, table, free, held, idle, touched, disk.file, f);
      var rc := disk.Write(page.pageId, page.data);
      Set(f, page.(dirty := false));
      touched := touched - {f};
    }

    /** The page of an idle frame is on disk as it was in the frame. */
    method Clean(f: FrameId, ghost idle: set<FrameId>)
      requires frames == pages[..] && disk.Valid() && Sound(frames, table, [], {}, idle, touched, disk.file)
      requires f in idle && disk.Allocated(frames[f].pageId)
      modifies this`frames, this`touched, pages, disk`file
      ensures frames == pages[..] && disk.Valid() && Sound(frames, table, [], {}, idle, touched, disk.file)
      ensures frames == old(frames)[f := old(frames)[f].(dirty := false)]
      ensures forall p {:trigger Contents(p)} :: Contents(p) == old(Contents(p))
    {
      if pages[f].dirty {
        WriteBack(f, [], {}, idle);
      }
    }

    /** A clean page nobody uses leaves its frame. */
    method Vacate(f: FrameId, ghost idle: set<FrameId>)
      requires frames == pages[..] && Sound(frames, table, [], {}, idle, touched, disk.file)
      requires f in idle && !frames[f].dirty
      modifies this`frames, this`table, pages
      ensures frames == pages[..] && Sound(frames, table, [], {f}, idle - {f}, touched, disk.file)
      ensures frames == old(frames)[f := Emptied(old(frames)[f])] && table == old(table) - {old(frames)[f].pageId}
      ensures forall p {:trigger Contents(p)} :: Contents(p) == old(Contents(p))
    {
      Evicted(frames, table, idle, touched, disk.file, f);
      table := table - {pages[f].pageId};
      Set(f, Emptied(pages[f]));
    }

    method Evict(f: FrameId, ghost idle: set<FrameId>)
      requires frames == pages[..] && disk.Valid() && Sound(frames, table, [], {}, idle, touched, disk.file)
      requires f in idle && disk.Allocated(frames[f].pageId)
      modifies this`frames, this`table, this`touched, pages, disk`file
      ensures frames == pages[..] && disk.Valid() && Sound(frames, table, [], {f}, idle - {f}, touched, disk.file)
      ensures frames == old(frames)[f := Emptied(old(frames)[f])] && table == old(table) - {old(frames)[f].pageId}
      ensures forall p {:trigger Contents(p)} :: Contents(p) == old(Contents(p))
    {
      Clean(f, idle);
      Vacate(f, idle);
    }

    method PickVictim() returns (victim: Option<FrameId>)
      requires replacer.Valid() && replacer.hot == []
      modifies replacer
      ensures replacer.Valid() && replacer.hot == []
      ensures victim.None? <==> old(replacer.frameMap) == map[]
      ensures victim.None? ==> replacer.frameMap == old(replacer.frameMap)
      ensures victim.Some? ==>
                && L.Earliest(old(replacer.cold), replacer.stamps, victim.value)
                && victim.value in old(replacer.frameMap).Keys
                && replacer.frameMap.Keys == old(replacer.frameMap).Keys - {victim.value}
    {
      victim := replacer.Victim();
    }

    /** evict_page: the page nobody has used for the longest time goes back to disk and leaves its frame. */
    method EvictPage() returns (victim: Option<FrameId>)
      requires Valid() && freeList == []
      modifies this, pages, replacer, disk`file
      ensures Holds([], if victim.Some? then {victim.value} else {})
      ensures victim.None? <==> old(replacer.frameMap) == map[]
      ensures victim.None? ==> freeList == [] && frames == old(frames) && table == old(table)
      ensures victim.Some? ==>
                && L.Earliest(old(replacer.cold), replacer.stamps, victim.value) && victim.value < |old(frames)|
                && frames == old(frames)[victim.value := Emptied(old(frames)[victim.value])]
                && table == old(table) - {old(frames)[victim.value].pageId}
                && freeList == if requeuesVictim then [victim.value] else []
      ensures forall p {:trigger Contents(p)} :: Contents(p) == old(Contents(p))
    {
      ghost var idle := replacer.frameMap.Keys;
      var v := PickVictim();
      if v.None? {
        return None;
      }
      Evict(v.value, idle);
      if requeuesVictim {
        freeList := freeList + [v.value];
      }
      victim := Some(v.value);
    }

    /** There is no free frame, but an idle one: a miss would call evict_page with success. */
    ghost predicate MustEvict()
      reads this, replacer
    {
      freeList == [] && replacer.frameMap != map[]
    }

    /** The frame was used by no one, and all else is as it was, but for a page that may have left the pool. */
    ghost predicate Got(was: seq<Frame>, before: map<PageId, FrameId>, f: FrameId)
      reads `frames, `table
    {
      && f < |was| && was[f].pinCount == 0 && OthersSame(was, frames, f)
      && SubTable(table, before, NO_PAGE)
    }

    /** find_free_frame, or else evict_page. */
    method GetFrame() returns (frame: Option<FrameId>)
      requires Valid()
      modifies this, pages, replacer, disk`file
      ensures frame.None? <==> old(freeList == [] && replacer.frameMap == map[])
      ensures frame.None? ==> Valid() && frames == old(frames) && table == old(table) && freeList == []
      ensures frame.Some? ==>
                && Holds(if old(freeList) == [] then [] else old(freeList)[1..], {frame.value})
                && freeList == (if old(freeList) != [] then old(freeList)[1..] else if requeuesVictim then [frame.value] else [])
                && Got(old(frames), old(table), frame.value) && table.Keys <= old(table).Keys
      ensures forall p {:trigger Contents(p)} :: Contents(p) == old(Contents(p))
    {
      if freeList != [] {
        Taken(frames, freeList);
        frame := Some(freeList[0]);
        freeList := freeList[1..];
      } else {
        frame := EvictPage();
      }
    }

    /** The page moves into the frame that was got for it. */
    method Load(f: FrameId, p: PageId, data: Bytes, ghost free: seq<FrameId>)
      requires Holds(free, {f}) && f < pages.Length && p != NO_PAGE && p !in table && disk.Allocated(p)
      requires data == disk.file[p]
      modifies this`frames, this`table, pages
      ensures Holds(free, {})
      ensures frames == old(frames)[f := Frame(data, p, 1, false)] && table == old(table)[p := f]
      ensures forall q {:trigger Contents(q)} :: Contents(q) == old(Contents(q))
    {
      Loaded(frames, table, free, replacer.frameMap.Keys, touched, disk.file, f, p);
      Set(f, Frame(data, p, 1, false));
      table := table[p := f];
    }

    /** A page that is resident gets one more user and leaves the replacer. */
    method Hit(f: FrameId)
      requires Valid() && f < pages.Length && frames[f].pageId != NO_PAGE
      modifies this`frames, pages, replacer
      ensures Valid()
      ensures frames == old(frames)[f := old(frames)[f].(pinCount := old(frames)[f].pinCount + 1)]
      ensures forall q {:trigger Contents(q)} :: Contents(q) == old(Contents(q))
    {
      Pinned(frames, table, freeList, replacer.frameMap.Keys, touched, disk.file, f);
      var page := pages[f];
      Set(f, page.(pinCount := page.pinCount + 1));
      replacer.Pin(f);
    }

    /** A frame that is on the free list twice, or while it holds a page, breaks the pool. */
    lemma Broken(f: FrameId)
      requires f < |frames| && (freeList == [f, f] || (freeList == [f] && frames[f].pageId != NO_PAGE))
      ensures !Valid()
    {
      if freeList == [f, f] {
        assert freeList[0] == freeList[1];
      } else {
        assert freeList[0] == f;
      }
    }

    /** Reading the page failed: the frame goes back on the free list, where evict_page may have put it already. */
    method GiveBack(f: FrameId, ghost free: seq<FrameId>)
      requires Holds(free, {f}) && f < |frames| && (freeList == free || freeList == [f])
      modifies this`freeList
      ensures old(freeList) == free ==> Valid()
      ensures old(freeList) == [f] ==> !Valid()
    {
      GivenBack(frames, free, f);
      freeList := freeList + [f];
      if old(freeList) == [f] {
        Broken(f);
      }
    }

    /** The frame that was got is filled with the page, or given back. */
    method ReadInto(f: FrameId, p: PageId, ghost free: seq<FrameId>, ghost was: seq<Frame>, ghost before: map<PageId, FrameId>)
      returns (done: bool)
      requires Holds(free, {f}) && Got(was, before, f) && (freeList == free || freeList == [f])
      requires p !in table && p != 0 && p !in disk.freeList
      modifies this, pages
      ensures done <==> 1 <= p < disk.pageCount
      ensures done ==> Loads(was, before, p, f) && freeList == old(freeList)
      ensures forall q {:trigger Contents(q)} :: Contents(q) == old(Contents(q))
      ensures old(freeList) == free ==> Valid()
      ensures old(freeList) == [f] ==> !Valid()
      ensures Intact()
    {
      var rc, data := disk.Read(p);
      done := rc == D.DB_OK;
      if done {
        Load(f, p, data, free);
        if freeList == [f] {
          Broken(f);
        }
      } else {
        GiveBack(f, free);
      }
    }

    /** A miss: the page is read into a frame that nobody uses.  If a page had to be evicted, the code as written
        leaves the frame on the free list as well. */
    method Miss(p: PageId) returns (page: Option<FrameId>)
      requires Valid() && p !in table && p != 0 && p !in disk.freeList
      modifies this, pages, replacer, disk`file
      ensures page.Some? <==> 1 <= p < disk.pageCount && old(freeList != [] || replacer.frameMap != map[])
      ensures page.Some? ==> Loads(old(frames), old(table), p, page.value)
      ensures forall q {:trigger Contents(q)} :: Contents(q) == old(Contents(q))
      ensures Valid() <==> !(requeuesVictim && old(MustEvict()))
      ensures requeuesVictim && old(MustEvict()) && page.Some? ==> freeList == [page.value]
      ensures Intact()
    {
      var frame := GetFrame();
      if frame.None? {
        return None;
      }
      var done := ReadInto(frame.value, p, if old(freeList) == [] then [] else freeList, old(frames), old(table));
      page := if done then frame else None;
    }

    /** The page has got a frame that no one had pinned, and the other users' frames are as they were. */
    ghost predicate Loads(was: seq<Frame>, before: map<PageId, FrameId>, p: PageId, f: FrameId)
      reads `frames, `table
    {
      && f < |was| && was[f].pinCount == 0 && OthersSame(was, frames, f)
      && frames[f].pageId == p && frames[f].pinCount == 1
      && p in table && table[p] == f && SubTable(table, before, p)
    }

    /** bpm_fetch_page.  Every run in which evict_page only hands its victim on keeps the pool valid; as written,
        a fetch keeps it valid exactly if it need not evict. */
    method Fetch(p: PageId) returns (page: Option<FrameId>)
      requires Valid() && p != 0 && p !in disk.freeList
      modifies this, pages, replacer, disk`file
      ensures page.Some? <==>
                old(p in table) || (1 <= p < disk.pageCount && old(freeList != [] || replacer.frameMap != map[]))
      ensures old(p in table) ==>
                && page == Some(old(table[p])) && table == old(table) && page.value < |frames|
                && frames == old(frames)[page.value := old(frames)[page.value].(pinCount := old(frames)[page.value].pinCount + 1)]
      ensures old(p !in table) && page.Some? ==> Loads(old(frames), old(table), p, page.value)
      ensures page.Some? ==> page.value < |frames| && frames[page.value].data == old(Contents(p))
      ensures forall q {:trigger Contents(q)} :: Contents(q) == old(Contents(q))
      ensures Valid() <==> !(requeuesVictim && old(p !in table && MustEvict()))
      ensures !Valid() && page.Some? ==> freeList == [page.value]
      ensures Intact()
    {
      if p in table {
        var f := table[p];
        Hit(f);
        return Some(f);
      }
      page := Miss(p);
      assert page.Some? ==> frames[page.value].data == Contents(p);
    }

    /** The next miss in a broken pool: find_free_frame hands out the frame on the list, whoever uses it. */
    method MissAgain(q: PageId) returns (page: Option<FrameId>)
      requires Intact() && |freeList| == 1 && freeList[0] < |frames| && q !in table && disk.Allocated(q)
      modifies this`frames, this`table, this`freeList, pages
      ensures page == Some(old(freeList)[0]) && freeList == []
      ensures frames == old(frames)[page.value := Frame(disk.file[q], q, 1, false)] && table == old(table)[q := page.value]
    {
      var f := freeList[0];
      freeList := freeList[1..];
      var rc, data := disk.Read(q);
      Set(f, Frame(data, q, 1, false));
      table := table[q := f];
      page := Some(f);
    }

    /** What a requeued victim does: the page fetched next gets the same frame while the first page is still
        pinned there, and the first page's contents are lost. */
    method LostPage(p: PageId, q: PageId) returns (first: Option<FrameId>, second: Option<FrameId>)
      requires Valid() && requeuesVictim && MustEvict()
      requires p !in table && q !in table && p != q && disk.Allocated(p) && disk.Allocated(q)
      modifies this, pages, replacer, disk`file
      ensures first.Some? && second == first
      ensures p in table && q in table && table[p] == table[q] == first.value
      ensures first.value < |frames| && frames[first.value].pageId == q && frames[first.value].pinCount == 1
      ensures Contents(p) == Contents(q) == old(Contents(q))
    {
      first := Fetch(p);
      assert q !in table && Contents(q) == disk.file[q];
      second := MissAgain(q);
    }

    method AllocatePage() returns (p: PageId)
      requires Valid() && (disk.freeListHead == NO_PAGE ==> disk.pageCount < 0x7fff_ffff)
      modifies disk
      ensures Valid() && 1 <= p && p !in table && disk.Allocated(p) && !old(disk.Allocated(p)) && disk.file[p] == D.ZERO_PAGE
      ensures forall q {:trigger disk.Allocated(q)} :: q != p ==> disk.Allocated(q) == old(disk.Allocated(q))
      ensures Contents(p) == D.ZERO_PAGE
      ensures forall q {:trigger Contents(q)} :: q != p ==> Contents(q) == old(Contents(q))
    {
      p := disk.Allocate();
      Elsewhere(frames, table, freeList, {}, replacer.frameMap.Keys, touched, old(disk.file), p, D.ZERO_PAGE);
    }

    method DeallocatePage(p: PageId)
      requires Valid() && p !in table && disk.Allocated(p)
      modifies disk
      ensures Valid() && !disk.Allocated(p)
      ensures forall q {:trigger disk.Allocated(q)} :: q != p ==> disk.Allocated(q) == old(disk.Allocated(q))
      ensures forall q {:trigger Contents(q)} :: q != p ==> Contents(q) == old(Contents(q))
    {
      var rc := disk.Deallocate(p);
      Elsewhere(frames, table, freeList, {}, replacer.frameMap.Keys, touched, old(disk.file), p, disk.file[p]);
    }

    /** The frame that was got is filled with the new, blank page. */
    method Blank(f: FrameId, p: PageId, ghost free: seq<FrameId>, ghost was: seq<Frame>, ghost before: map<PageId, FrameId>)
      requires Holds(free, {f}) && Got(was, before, f) && (freeList == free || freeList == [f])
      requires p !in table && disk.Allocated(p) && Contents(p) == D.ZERO_PAGE
      modifies this`frames, this`table, pages, disk`file
      ensures Loads(was, before, p, f)
      ensures forall q {:trigger Contents(q)} :: Contents(q) == old(Contents(q))
      ensures freeList == free ==> Valid()
      ensures freeList == [f] ==> !Valid()
    {
      Elsewhere(frames, table, free, {f}, replacer.frameMap.Keys, touched, disk.file, p, D.ZERO_PAGE);
      var rc := disk.Write(p, D.ZERO_PAGE);
      Load(f, p, D.ZERO_PAGE, free);
      if freeList == [f] {
        Broken(f);
      }
    }

    method GetBlank(p: PageId) returns (page: Option<FrameId>)
      requires Valid() && p !in table && disk.Allocated(p) && Contents(p) == D.ZERO_PAGE
      modifies this, pages, replacer, disk`file
      ensures page.Some? <==> old(freeList != [] || replacer.frameMap != map[])
      ensures page.Some? ==> Loads(old(frames), old(table), p, page.value)
      ensures page.None? ==> table == old(table)
      ensures forall q {:trigger Contents(q)} :: Contents(q) == old(Contents(q))
      ensures Valid() <==> !(requeuesVictim && old(MustEvict()))
      ensures requeuesVictim && old(MustEvict()) && page.Some? ==> freeList == [page.value]
    {
      ghost var breaks, listed := requeuesVictim && MustEvict(), freeList != [];
      page := GetFrame();
      if page.Some? {
        ghost var free := if listed then freeList else [];
        assert freeList == if breaks then [page.value] else free;
        Blank(page.value, p, free, old(frames), old(table));
        assert Valid() <==> !breaks;
      }
    }

    /** A frame with the blank page just allocated; if there is none, the allocation is undone. */
    method BlankOrUndo(p: PageId) returns (page: Option<FrameId>)
      requires Valid() && p !in table && disk.Allocated(p) && Contents(p) == D.ZERO_PAGE
      modifies this, pages, replacer, disk
      ensures page.Some? <==> old(freeList != [] || replacer.frameMap != map[])
      ensures page.Some? ==> Loads(old(frames), old(table), p, page.value) && Contents(p) == D.ZERO_PAGE
      ensures disk.Allocated(p) <==> page.Some?
      ensures forall q {:trigger disk.Allocated(q)} :: q != p ==> disk.Allocated(q) == old(disk.Allocated(q))
      ensures forall q {:trigger Contents(q)} :: q != p ==> Contents(q) == old(Contents(q))
      ensures Valid() <==> !(requeuesVictim && old(MustEvict()))
      ensures requeuesVictim && old(MustEvict()) && page.Some? ==> freeList == [page.value]
    {
      page := GetBlank(p);
      if page.None? {
        DeallocatePage(p);
      }
    }

    /** bpm_new_page: a page that was not in use, blank, and no other page changes. */
    method NewPage() returns (page: Option<FrameId>, p: PageId)
      requires Valid() && (disk.freeListHead == NO_PAGE ==> disk.pageCount < 0x7fff_ffff)
      modifies this, pages, replacer, disk
      ensures page.Some? <==> old(freeList != [] || replacer.frameMap != map[])
      ensures page.Some? ==>
                && !old(disk.Allocated(p)) && disk.Allocated(p) && Contents(p) == D.ZERO_PAGE
                && Loads(old(frames), old(table), p, page.value)
      ensures forall q {:trigger disk.Allocated(q)} :: old(disk.Allocated(q)) ==> disk.Allocated(q)
      ensures forall q {:trigger Contents(q)} :: old(disk.Allocated(q)) ==> Contents(q) == old(Contents(q))
      ensures Valid() <==> !(requeuesVictim && old(MustEvict()))
      ensures !Valid() && page.Some? ==> freeList == [page.value]
    {
      p := AllocatePage();
      assert table == old(table) && frames == old(frames) && MustEvict() == old(MustEvict());
      page := BlankOrUndo(p);
    }

    /** A client that has pinned the page writes to its data. */
    method ClientWrite(f: FrameId, data: Bytes)
      requires Valid() && f < |frames| && frames[f].pageId != NO_PAGE && frames[f].pinCount > 0 && |data| == PAGE_SIZE
      modifies this`frames, this`touched, pages
      ensures Valid() && frames == old(frames)[f := old(frames)[f].(data := data)] && touched == old(touched) + {f}
      ensures Contents(frames[f].pageId) == data
      ensures forall q {:trigger Contents(q)} :: q != frames[f].pageId ==> Contents(q) == old(Contents(q))
    {
      Written(frames, table, freeList, replacer.frameMap.Keys, touched, disk.file, f, data);
      var page := pages[f];
      Set(f, page.(data := data));
      touched := touched + {f};
    }

    /** bpm_unpin_page.  The last user of a page that was written to has to say so, or somebody before it. */
    method Unpin(p: PageId, isDirty: bool) returns (rc: int)
      requires Valid()
      requires p in table && table[p] in touched && frames[table[p]].pinCount == 1 ==> isDirty || frames[table[p]].dirty
      modifies this`frames, pages, replacer
      ensures Valid()
      ensures rc == if p in table && old(frames)[table[p]].pinCount > 0 then 0 else -1
      ensures rc != 0 ==> frames == old(frames)
      ensures rc == 0 ==>
                var was := old(frames)[table[p]];
                frames == old(frames)[table[p] := was.(pinCount := was.pinCount - 1, dirty := was.dirty || isDirty)]
      ensures forall q {:trigger Contents(q)} :: Contents(q) == old(Contents(q))
    {
      if p !in table {
        return -1;
      }
      var f := table[p];
      var page := pages[f];
      if page.pinCount <= 0 {
        return -1;
      }
      Release(f, isDirty);
      rc := 0;
    }

    method HandIn(f: FrameId)
      requires replacer.Valid() && replacer.hot == [] && f !in replacer.frameMap
      modifies replacer
      ensures replacer.Valid() && replacer.hot == [] && replacer.frameMap.Keys == old(replacer.frameMap).Keys + {f}
    {
      replacer.Unpin(f);
    }

    method Release(f: FrameId, isDirty: bool)
      requires Valid() && f < |frames| && frames[f].pageId != NO_PAGE && frames[f].pinCount > 0
      requires f in touched && frames[f].pinCount == 1 ==> isDirty || frames[f].dirty
      modifies this`frames, pages, replacer
      ensures Valid()
      ensures var was := old(frames)[f];
              frames == old(frames)[f := was.(pinCount := was.pinCount - 1, dirty := was.dirty || isDirty)]
      ensures forall q {:trigger Contents(q)} :: Contents(q) == old(Contents(q))
    {
      var last := pages[f].pinCount == 1;
      Drop(f, isDirty, replacer.frameMap.Keys);
      if last {
        HandIn(f);
      }
    }

    method Drop(f: FrameId, isDirty: bool, ghost idle: set<FrameId>)
      requires frames == pages[..] && Sound(frames, table, freeList, {}, idle, touched, disk.file)
      requires f < |frames| && frames[f].pageId != NO_PAGE && frames[f].pinCount > 0
      requires f in touched && frames[f].pinCount == 1 ==> isDirty || frames[f].dirty
      modifies this`frames, pages
      ensures frames == pages[..]
      ensures Sound(frames, table, freeList, {}, if old(frames)[f].pinCount == 1 then idle + {f} else idle, touched, disk.file)
      ensures var was := old(frames)[f];
              frames == old(frames)[f := was.(pinCount := was.pinCount - 1, dirty := was.dirty || isDirty)]
      ensures forall q {:trigger Contents(q)} :: Contents(q) == old(Contents(q))
    {
      Unpinned(frames, table, freeList, idle, touched, disk.file, f, isDirty);
      var page := pages[f];
      Set(f, page.(pinCount := page.pinCount - 1, dirty := page.dirty || isDirty));
    }

    /** bpm_flush_page. */
    method Flush(p: PageId) returns (rc: int)
      requires Valid()
      modifies this`frames, this`touched, pages, disk`file
      ensures Valid() && rc == if p in table then D.DB_OK else -1
      ensures rc == D.DB_OK ==> p in disk.file && disk.file[p] == Contents(p) && !frames[table[p]].dirty
      ensures forall q {:trigger Contents(q)} :: Contents(q) == old(Contents(q))
    {
      if p !in table {
        return -1;
      }
      WriteBack(table[p], freeList, {}, replacer.frameMap.Keys);
      rc := D.DB_OK;
    }

    /** bpm_flush_all: afterwards the disk is what the clients see, but for pages written to and not yet unpinned
        as dirty. */
    method FlushAll()
      requires Valid()
      modifies this`frames, this`touched, pages, disk`file
      ensures Valid()
      ensures forall f: FrameId {:trigger frames[f]} :: f < |frames| ==> !frames[f].dirty
      ensures forall q {:trigger Contents(q)} :: Contents(q) == old(Contents(q))
      ensures forall q {:trigger Contents(q)} :: disk.Allocated(q) && !(q in table && table[q] in touched) ==>
                disk.file[q] == Contents(q)
    {
      for i := 0 to pages.Length
        invariant Valid() && |frames| == pages.Length
        invariant forall f: FrameId {:trigger frames[f]} :: f < i ==> !frames[f].dirty
        invariant forall q {:trigger Contents(q)} :: Contents(q) == old(Contents(q))
      {
        FlushFrame(i);
      }
    }

    /** The loop body of bpm_flush_all. */
    method FlushFrame(f: FrameId)
      requires Valid() && f < |frames|
      modifies this`frames, this`touched, pages, disk`file
      ensures Valid() && frames == old(frames)[f := old(frames)[f].(dirty := false)]
      ensures forall q {:trigger Contents(q)} :: Contents(q) == old(Contents(q))
    {
      if pages[f].pageId != NO_PAGE && pages[f].dirty {
        WriteBack(f, freeList, {}, replacer.frameMap.Keys);
      }
    }
  }
}
