/** Slotted pages (src/storage/slotted_page.c): a header, slots growing up from it, tuples growing down
    from the end of the page. */
module SlottedPage {
  import opened Wrappers
  import opened PageBytes

  const HEADER_SIZE: int := 24
  const SLOT_SIZE: int := 4
  const PAGE_ID: int := 0
  const NUM_TUPLES: int := 12
  const FREE_SPACE: int := 16
  const NEXT_PAGE: int := 20

  const DB_OK: int := 0
  const DB_PAGE_NOT_FOUND: int := 1002
  const DB_INVALID_ARGUMENT: int := 3007
  const DB_OUT_OF_MEMORY: int := 4001

  /** The largest tuple an empty page has room for. */
  const MAX_TUPLE: int := PAGE_SIZE - HEADER_SIZE - SLOT_SIZE

  /** A slot of size 0 is a deleted one. */
  datatype Slot = Slot(offset: nat, size: nat)

  function SlotPos(i: nat): nat { HEADER_SIZE + i * SLOT_SIZE }

  function NumSlots(p: Bytes): nat
    requires |p| == PAGE_SIZE
  {
    U32At(p, NUM_TUPLES)
  }

  function NextPage(p: Bytes): int
    requires |p| == PAGE_SIZE
  {
    I32At(p, NEXT_PAGE)
  }

  ghost predicate Framed(p: Bytes) {
    |p| == PAGE_SIZE && SlotPos(NumSlots(p)) <= PAGE_SIZE
  }

  function SlotAt(p: Bytes, i: nat): Slot
    requires |p| == PAGE_SIZE && SlotPos(i + 1) <= PAGE_SIZE
  {
    Slot(U16At(p, SlotPos(i)), U16At(p, SlotPos(i) + 2))
  }

  ghost function Slots(p: Bytes): (s: seq<Slot>)
    requires Framed(p)
    ensures |s| == NumSlots(p) && forall i {:trigger s[i]} :: 0 <= i < |s| ==> s[i] == SlotAt(p, i)
  {
    seq(NumSlots(p), i requires 0 <= i < NumSlots(p) => SlotAt(p, i))
  }

  /** No live tuple lies below `u`. */
  ghost predicate Below(u: nat, s: seq<Slot>) {
    forall i {:trigger s[i]} :: 0 <= i < |s| && s[i].size > 0 ==> u <= s[i].offset
  }

  ghost predicate StartsAt(u: nat, s: seq<Slot>) {
    exists i {:trigger s[i]} :: 0 <= i < |s| && s[i].size > 0 && s[i].offset == u
  }

  /** `u` is the least offset of a live tuple, or the end of the page if there is none. */
  ghost predicate IsUpper(u: nat, s: seq<Slot>) {
    u <= PAGE_SIZE && Below(u, s) && (u == PAGE_SIZE || StartsAt(u, s))
  }

  lemma {:induction false} UpperExists(s: seq<Slot>)
    ensures exists u: nat :: IsUpper(u, s)
  {
    if s == [] {
      assert IsUpper(PAGE_SIZE, s);
    } else {
      UpperExists(s[..|s| - 1]);
      var u: nat :| IsUpper(u, s[..|s| - 1]);
      u := NextUpper(u, s);
    }
  }

  lemma NextUpper(u: nat, s: seq<Slot>) returns (v: nat)
    requires s != [] && IsUpper(u, s[..|s| - 1])
    ensures var t := s[|s| - 1]; v == if t.size > 0 && t.offset < u then t.offset else u
    ensures IsUpper(v, s)
  {
    var t := s[|s| - 1];
    v := if t.size > 0 && t.offset < u then t.offset else u;
    if v == u && u != PAGE_SIZE {
      var i :| 0 <= i < |s| - 1 && s[..|s| - 1][i].size > 0 && s[..|s| - 1][i].offset == u;
      assert s[i].offset == u;
    }
  }

  lemma UpperUnique(u: nat, v: nat, s: seq<Slot>)
    requires IsUpper(u, s) && IsUpper(v, s)
    ensures u == v
  {
  }

  ghost function Upper(s: seq<Slot>): (u: nat)
    ensures IsUpper(u, s)
  {
    UpperExists(s);
    var u: nat :| IsUpper(u, s);
    u
  }

  ghost function FreeSpace(s: seq<Slot>): nat {
    if Upper(s) > SlotPos(|s|) then Upper(s) - SlotPos(|s|) else 0
  }

  ghost predicate InBounds(s: seq<Slot>, i: nat)
    requires i < |s|
  {
    s[i].size > 0 ==> SlotPos(|s|) <= s[i].offset && s[i].offset + s[i].size <= PAGE_SIZE
  }

  ghost predicate Apart(a: Slot, b: Slot) {
    a.size > 0 && b.size > 0 ==> a.offset + a.size <= b.offset || b.offset + b.size <= a.offset
  }

  /** Live tuples lie above the slot array and within the page, and no two overlap. */
  ghost predicate Disjoint(s: seq<Slot>) {
    && (forall i {:trigger s[i]} :: 0 <= i < |s| ==> InBounds(s, i))
    && (forall i, j {:trigger s[i], s[j]} :: 0 <= i < j < |s| ==> Apart(s[i], s[j]))
  }

  ghost predicate PageOk(p: Bytes) {
    Framed(p) && Disjoint(Slots(p)) && U32At(p, FREE_SPACE) == FreeSpace(Slots(p))
  }

  ghost function TupleIn(p: Bytes, s: Slot): Option<Bytes> {
    if s.size > 0 && s.offset + s.size <= |p| then Some(p[s.offset..s.offset + s.size]) else None
  }

  /** The tuple in each slot. */
  ghost function Tuples(p: Bytes): (v: seq<Option<Bytes>>)
    requires Framed(p)
    ensures |v| == NumSlots(p)
    ensures forall i {:trigger v[i]} :: 0 <= i < |v| ==> v[i] == TupleIn(p, Slots(p)[i])
  {
    seq(NumSlots(p), i requires 0 <= i < NumSlots(p) => TupleIn(p, Slots(p)[i]))
  }

  // ---------------------------------------------------------------------------------------------
  // A page without its bytes

  /** `tuples[i]` is what slot `i` holds. */
  datatype Page = Page(slots: seq<Slot>, tuples: seq<Option<Bytes>>, next: int)

  ghost function Abs(p: Bytes): Page
    requires Framed(p)
  {
    Page(Slots(p), Tuples(p), NextPage(p))
  }

  ghost predicate Live(pg: Page, i: int) {
    0 <= i < |pg.slots| && pg.slots[i].size > 0
  }

  ghost predicate HasRoom(pg: Page, size: nat) {
    SlotPos(|pg.slots| + 1) + size <= Upper(pg.slots)
  }

  /** The new image fits where the old one is, or below all live tuples. */
  ghost predicate UpdateFits(pg: Page, i: nat, size: nat)
    requires Live(pg, i)
  {
    size <= pg.slots[i].size || SlotPos(|pg.slots|) + size <= Upper(pg.slots)
  }

  ghost function NewOffset(pg: Page, i: nat, size: nat): nat
    requires Live(pg, i) && UpdateFits(pg, i, size)
  {
    if size <= pg.slots[i].size then pg.slots[i].offset else Upper(pg.slots) - size
  }

  ghost function WithTuple(pg: Page, data: Bytes): Page
    requires HasRoom(pg, |data|)
  {
    pg.(slots := pg.slots + [Slot(Upper(pg.slots) - |data|, |data|)], tuples := pg.tuples + [Some(data)])
  }

  ghost function Without(pg: Page, i: nat): Page
    requires Live(pg, i) && |pg.tuples| == |pg.slots|
  {
    pg.(slots := pg.slots[i := pg.slots[i].(size := 0)], tuples := pg.tuples[i := None])
  }

  ghost function WithImage(pg: Page, i: nat, data: Bytes): Page
    requires Live(pg, i) && UpdateFits(pg, i, |data|) && |pg.tuples| == |pg.slots|
  {
    pg.(slots := pg.slots[i := Slot(NewOffset(pg, i, |data|), |data|)], tuples := pg.tuples[i := Some(data)])
  }

  // ---------------------------------------------------------------------------------------------
  // Frames

  /** Outside the header's counters, the slot `i` and the bytes from `lo` up to `hi` nothing changes. */
  ghost predicate OwnBytesOnly(p: Bytes, q: Bytes, i: nat, lo: nat, hi: nat) {
    && Agree(p, q, 0, NUM_TUPLES) && Agree(p, q, NEXT_PAGE, SlotPos(i))
    && Agree(p, q, SlotPos(i + 1), lo) && Agree(p, q, hi, |p|)
  }

  lemma OwnBytesTrans(p: Bytes, q: Bytes, r: Bytes, i: nat, lo: nat, hi: nat)
    requires OwnBytesOnly(p, q, i, lo, hi) && OwnBytesOnly(q, r, i, lo, hi)
    ensures OwnBytesOnly(p, r, i, lo, hi)
  {
    AgreeTrans(p, q, r, 0, NUM_TUPLES);
    AgreeTrans(p, q, r, NEXT_PAGE, SlotPos(i));
    AgreeTrans(p, q, r, SlotPos(i + 1), lo);
    AgreeTrans(p, q, r, hi, |p|);
  }

  lemma SameSlot(p: Bytes, q: Bytes, i: nat)
    requires |p| == PAGE_SIZE && SlotPos(i + 1) <= PAGE_SIZE && Agree(p, q, SlotPos(i), SlotPos(i + 1))
    ensures SlotAt(q, i) == SlotAt(p, i)
  {
    SameU16(p, q, SlotPos(i));
    SameU16(p, q, SlotPos(i) + 2);
  }

  lemma SameTuple(p: Bytes, q: Bytes, s: seq<Slot>, i: nat)
    requires |p| == PAGE_SIZE && i < |s| && InBounds(s, i)
    requires Agree(p, q, s[i].offset, s[i].offset + s[i].size)
    ensures TupleIn(q, s[i]) == TupleIn(p, s[i])
  {
    if s[i].size > 0 {
      SameSlice(p, q, s[i].offset, s[i].offset + s[i].size);
    }
  }

  lemma SlotsAre(q: Bytes, s: seq<Slot>)
    requires Framed(q) && |s| == NumSlots(q)
    requires forall i {:trigger s[i]} :: 0 <= i < |s| ==> s[i] == SlotAt(q, i)
    ensures Slots(q) == s
  {
  }

  lemma TuplesAre(q: Bytes, v: seq<Option<Bytes>>)
    requires Framed(q) && |v| == NumSlots(q)
    requires forall i {:trigger v[i]} :: 0 <= i < |v| ==> v[i] == TupleIn(q, Slots(q)[i])
    ensures Tuples(q) == v
  {
  }

  /** Writing the free space field last completes the page. */
  lemma Completed(q: Bytes, r: Bytes)
    requires Framed(q) && Disjoint(Slots(q))
    requires OnlyChanges(q, r, FREE_SPACE, NEXT_PAGE) && U32At(r, FREE_SPACE) == FreeSpace(Slots(q))
    ensures PageOk(r) && Abs(r) == Abs(q)
  {
    SameU32(q, r, NUM_TUPLES);
    SameU32(q, r, NEXT_PAGE);
    forall i | 0 <= i < NumSlots(q) ensures SlotAt(r, i) == Slots(q)[i] {
      SameSlot(q, r, i);
    }
    SlotsAre(r, Slots(q));
    forall i | 0 <= i < NumSlots(q) ensures TupleIn(r, Slots(q)[i]) == Tuples(q)[i] {
      assert InBounds(Slots(q), i);
      SameTuple(q, r, Slots(q), i);
    }
    TuplesAre(r, Tuples(q));
  }

  /** `q` is `p` with a tuple at `at` and slot `i` for it. */
  ghost predicate Points(p: Bytes, q: Bytes, i: nat, at: nat, data: Bytes) {
    && |p| == |q| == PAGE_SIZE && SlotPos(i + 1) <= at && at + |data| <= PAGE_SIZE
    && SlotAt(q, i) == Slot(at, |data|) && q[at..at + |data|] == data
    && OwnBytesOnly(p, q, i, at, at + |data|)
  }

  /** The slot written behind the tuple's bytes leaves them alone. */
  lemma Pointed(p: Bytes, q0: Bytes, q: Bytes, i: nat, at: nat, data: Bytes)
    requires |p| == PAGE_SIZE && SlotPos(i + 1) <= at && at + |data| <= PAGE_SIZE
    requires OnlyChanges(p, q0, at, at + |data|) && q0[at..at + |data|] == data
    requires OnlyChanges(q0, q, SlotPos(i), SlotPos(i + 1)) && SlotAt(q, i) == Slot(at, |data|)
    ensures Points(p, q, i, at, data) && NextPage(q) == NextPage(p) && NumSlots(q) == NumSlots(p)
  {
    OwnBytesTrans(p, q0, q, i, at, at + |data|);
    SameSlice(q0, q, at, at + |data|);
    SameU32(p, q0, NEXT_PAGE);
    SameU32(q0, q, NEXT_PAGE);
    SameU32(p, q0, NUM_TUPLES);
    SameU32(q0, q, NUM_TUPLES);
  }

  /** Another slot and its tuple stay. */
  lemma OtherStays(p: Bytes, q: Bytes, i: nat, at: nat, size: nat, j: nat)
    requires PageOk(p) && j < NumSlots(p) && j != i && OwnBytesOnly(p, q, i, at, at + size)
    requires SlotPos(NumSlots(p)) <= at && Apart(Slots(p)[j], Slot(at, size)) && size > 0
    requires Slots(p)[j].size > 0 ==> SlotPos(i + 1) <= Slots(p)[j].offset
    ensures SlotAt(q, j) == Slots(p)[j] && TupleIn(q, Slots(p)[j]) == Tuples(p)[j]
  {
    SameSlot(p, q, j);
    assert InBounds(Slots(p), j);
    SameTuple(p, q, Slots(p), j);
  }

  lemma SlotAdded(s: seq<Slot>, t: Slot)
    requires Disjoint(s) && SlotPos(|s| + 1) <= t.offset && t.offset + t.size <= PAGE_SIZE
    requires Below(t.offset + t.size, s)
    ensures Disjoint(s + [t])
  {
    var r := s + [t];
    forall j | 0 <= j < |r| ensures InBounds(r, j) {
      if j < |s| { assert InBounds(s, j); }
    }
    forall j, k | 0 <= j < k < |r| ensures Apart(r[j], r[k]) {
      if k < |s| { assert Apart(s[j], s[k]); } else { assert r[j] == s[j]; }
    }
  }

  lemma SlotReplaced(s: seq<Slot>, i: nat, t: Slot)
    requires Disjoint(s) && i < |s| && SlotPos(|s|) <= t.offset && t.offset + t.size <= PAGE_SIZE
    requires forall j {:trigger s[j]} :: 0 <= j < |s| && j != i ==> Apart(s[j], t)
    ensures Disjoint(s[i := t])
  {
    var r := s[i := t];
    forall j | 0 <= j < |r| ensures InBounds(r, j) {
      assert InBounds(s, j);
    }
    forall j, k | 0 <= j < k < |r| ensures Apart(r[j], r[k]) {
      assert Apart(s[j], s[k]);
    }
  }

  // ---------------------------------------------------------------------------------------------
  // What the operations leave behind

  lemma SlotsAdded(p: Bytes, q: Bytes, at: nat, data: Bytes)
    requires PageOk(p) && data != [] && SlotPos(NumSlots(p) + 1) <= at && Below(at + |data|, Slots(p))
    requires Points(p, q, NumSlots(p), at, data) && NumSlots(q) == NumSlots(p) + 1
    ensures Slots(q) == Slots(p) + [Slot(at, |data|)]
  {
    forall i | 0 <= i < NumSlots(p) ensures SlotAt(q, i) == Slots(p)[i] {
      OtherStays(p, q, NumSlots(p), at, |data|, i);
    }
    SlotsAre(q, Slots(p) + [Slot(at, |data|)]);
  }

  lemma TupleAdded(p: Bytes, q: Bytes, at: nat, data: Bytes)
    requires PageOk(p) && data != [] && SlotPos(NumSlots(p) + 1) <= at && Below(at + |data|, Slots(p))
    requires Points(p, q, NumSlots(p), at, data) && NumSlots(q) == NumSlots(p) + 1
    ensures Slots(q) == Slots(p) + [Slot(at, |data|)] && Disjoint(Slots(q))
    ensures Tuples(q) == Tuples(p) + [Some(data)]
  {
    SlotsAdded(p, q, at, data);
    SlotAdded(Slots(p), Slot(at, |data|));
    forall i | 0 <= i < NumSlots(p) ensures TupleIn(q, Slots(p)[i]) == Tuples(p)[i] {
      OtherStays(p, q, NumSlots(p), at, |data|, i);
    }
    TuplesAre(q, Tuples(p) + [Some(data)]);
  }

  lemma TupleRemoved(p: Bytes, q: Bytes, i: nat)
    requires PageOk(p) && Live(Abs(p), i)
    requires OnlyChanges(p, q, SlotPos(i) + 2, SlotPos(i + 1)) && U16At(q, SlotPos(i) + 2) == 0
    ensures Framed(q) && Abs(q) == Without(Abs(p), i) && Disjoint(Slots(q))
  {
    var s, v := Without(Abs(p), i).slots, Without(Abs(p), i).tuples;
    SameU32(p, q, NUM_TUPLES);
    SameU32(p, q, NEXT_PAGE);
    SameU16(p, q, SlotPos(i));
    forall j | 0 <= j < |s| ensures SlotAt(q, j) == s[j] && InBounds(s, j) && TupleIn(q, s[j]) == v[j] {
      assert InBounds(Slots(p), j);
      if j != i { SameSlot(p, q, j); }
      SameTuple(p, q, s, j);
    }
    SlotsAre(q, s);
    TuplesAre(q, v);
    SlotReplaced(Slots(p), i, s[i]);
  }

  lemma NewPlaceApart(pg: Page, i: nat, size: nat, j: nat)
    requires Disjoint(pg.slots) && Live(pg, i) && UpdateFits(pg, i, size) && j < |pg.slots| && j != i
    ensures Apart(pg.slots[j], Slot(NewOffset(pg, i, size), size))
  {
    var s := pg.slots;
    assert if j < i then Apart(s[j], s[i]) else Apart(s[i], s[j]);
  }

  lemma NewPlaceInBounds(pg: Page, i: nat, size: nat)
    requires Disjoint(pg.slots) && Live(pg, i) && UpdateFits(pg, i, size)
    ensures SlotPos(|pg.slots|) <= NewOffset(pg, i, size) && NewOffset(pg, i, size) + size <= PAGE_SIZE
  {
    assert InBounds(pg.slots, i);
  }

  lemma TupleReplaced(p: Bytes, q: Bytes, i: nat, data: Bytes)
    requires PageOk(p) && Live(Abs(p), i) && data != [] && UpdateFits(Abs(p), i, |data|)
    requires Points(p, q, i, NewOffset(Abs(p), i, |data|), data)
    requires NumSlots(q) == NumSlots(p) && NextPage(q) == NextPage(p)
    ensures Abs(q) == WithImage(Abs(p), i, data) && Disjoint(Slots(q))
  {
    var t := Slot(NewOffset(Abs(p), i, |data|), |data|);
    NewPlaceInBounds(Abs(p), i, |data|);
    forall j | 0 <= j < NumSlots(p) && j != i
      ensures SlotAt(q, j) == Slots(p)[j] && TupleIn(q, Slots(p)[j]) == Tuples(p)[j] && Apart(Slots(p)[j], t)
    {
      NewPlaceApart(Abs(p), i, |data|, j);
      assert InBounds(Slots(p), j);
      OtherStays(p, q, i, t.offset, |data|, j);
    }
    SlotsAre(q, Slots(p)[i := t]);
    TuplesAre(q, Tuples(p)[i := Some(data)]);
    SlotReplaced(Slots(p), i, t);
  }

  // ---------------------------------------------------------------------------------------------
  // The operations on the page buffer

  /** page_header_init: no slots, no next page, the bytes behind the header as they were. */
  method Init(a: array<Byte>, pageId: int)
    requires a.Length == PAGE_SIZE && 0 <= pageId < 0x8000_0000
    modifies a
    ensures PageOk(a[..]) && Abs(a[..]) == Page([], [], -1) && I32At(a[..], PAGE_ID) == pageId
    ensures Agree(old(a[..]), a[..], HEADER_SIZE, PAGE_SIZE)
  {
    for i := 0 to HEADER_SIZE
      invariant Agree(old(a[..]), a[..], i, PAGE_SIZE)
    {
      ghost var was := a[..];
      a[i] := 0;
      forall j {:trigger SameAt(old(a[..]), a[..], j)} | i < j < PAGE_SIZE ensures SameAt(old(a[..]), a[..], j) {
        assert SameAt(old(a[..]), was, j);
      }
    }
    ghost var q0 := a[..];
    StoreI32(a, PAGE_ID, pageId);
    ghost var q1 := a[..];
    StoreU32(a, NUM_TUPLES, 0);
    ghost var q2 := a[..];
    StoreU32(a, FREE_SPACE, PAGE_SIZE - HEADER_SIZE);
    ghost var q3 := a[..];
    StoreI32(a, NEXT_PAGE, -1);
    Blank(q0, q1, q2, q3, a[..], pageId);
    AgreeTrans(old(a[..]), q0, a[..], HEADER_SIZE, PAGE_SIZE);
  }

  lemma Blank(q0: Bytes, q1: Bytes, q2: Bytes, q3: Bytes, q: Bytes, pageId: int)
    requires |q0| == PAGE_SIZE
    requires OnlyChanges(q0, q1, PAGE_ID, PAGE_ID + 4) && I32At(q1, PAGE_ID) == pageId
    requires OnlyChanges(q1, q2, NUM_TUPLES, NUM_TUPLES + 4) && U32At(q2, NUM_TUPLES) == 0
    requires OnlyChanges(q2, q3, FREE_SPACE, FREE_SPACE + 4) && U32At(q3, FREE_SPACE) == PAGE_SIZE - HEADER_SIZE
    requires OnlyChanges(q3, q, NEXT_PAGE, NEXT_PAGE + 4) && I32At(q, NEXT_PAGE) == -1
    ensures PageOk(q) && Abs(q) == Page([], [], -1) && I32At(q, PAGE_ID) == pageId
    ensures Agree(q0, q, HEADER_SIZE, PAGE_SIZE)
  {
    SameU32(q1, q2, PAGE_ID);
    SameU32(q2, q3, PAGE_ID);
    SameU32(q3, q, PAGE_ID);
    SameU32(q2, q3, NUM_TUPLES);
    SameU32(q3, q, NUM_TUPLES);
    SameU32(q3, q, FREE_SPACE);
    AgreeTrans(q0, q1, q2, HEADER_SIZE, PAGE_SIZE);
    AgreeTrans(q0, q2, q3, HEADER_SIZE, PAGE_SIZE);
    AgreeTrans(q0, q3, q, HEADER_SIZE, PAGE_SIZE);
    assert Slots(q) == [] && Tuples(q) == [];
  }

  /** free_space_upper. */
  method FreeSpaceUpper(a: array<Byte>) returns (upper: nat)
    requires a.Length == PAGE_SIZE && Framed(a[..])
    ensures upper == Upper(Slots(a[..]))
  {
    var numSlots := ReadU32(a, NUM_TUPLES);
    ghost var s := Slots(a[..]);
    upper := PAGE_SIZE;
    for i := 0 to numSlots
      invariant IsUpper(upper, s[..i])
    {
      assert s[i] == SlotAt(a[..], i);
      assert s[..i + 1][..i] == s[..i];
      ghost var next := NextUpper(upper, s[..i + 1]);
      var size := ReadU16(a, SlotPos(i) + 2);
      if size == 0 {
        continue;
      }
      var offset := ReadU16(a, SlotPos(i));
      if offset < upper {
        upper := offset;
      }
    }
    assert s[..numSlots] == s;
    UpperUnique(upper, Upper(s), s);
  }

  method FreeSpaceOf(a: array<Byte>) returns (free: nat)
    requires a.Length == PAGE_SIZE && Framed(a[..])
    ensures free == FreeSpace(Slots(a[..]))
  {
    var upper := FreeSpaceUpper(a);
    var lower := SlotPos(ReadU32(a, NUM_TUPLES));
    free := if upper > lower then upper - lower else 0;
  }

  method StoreFreeSpace(a: array<Byte>)
    requires a.Length == PAGE_SIZE && Framed(a[..]) && Disjoint(Slots(a[..]))
    modifies a
    ensures OnlyChanges(old(a[..]), a[..], FREE_SPACE, NEXT_PAGE)
    ensures PageOk(a[..]) && Abs(a[..]) == old(Abs(a[..]))
  {
    ghost var q := a[..];
    var free := FreeSpaceOf(a);
    assert a[..] == q;
    StoreU32(a, FREE_SPACE, free);
    Completed(q, a[..]);
  }

  method StoreSlot(a: array<Byte>, i: nat, offset: nat, size: nat)
    requires a.Length == PAGE_SIZE && SlotPos(i + 1) <= a.Length && offset < 0x1_0000 && size < 0x1_0000
    modifies a
    ensures OnlyChanges(old(a[..]), a[..], SlotPos(i), SlotPos(i + 1)) && SlotAt(a[..], i) == Slot(offset, size)
  {
    ghost var q0 := a[..];
    StoreU16(a, SlotPos(i), offset);
    ghost var q1 := a[..];
    StoreU16(a, SlotPos(i) + 2, size);
    SameU16(q1, a[..], SlotPos(i));
    AgreeTrans(q0, q1, a[..], 0, SlotPos(i));
    AgreeTrans(q0, q1, a[..], SlotPos(i + 1), PAGE_SIZE);
  }

  method StoreTuple(a: array<Byte>, i: nat, offset: nat, data: Bytes)
    requires a.Length == PAGE_SIZE && SlotPos(i + 1) <= offset && offset + |data| <= PAGE_SIZE
    modifies a
    ensures Points(old(a[..]), a[..], i, offset, data)
    ensures NextPage(a[..]) == NextPage(old(a[..])) && NumSlots(a[..]) == NumSlots(old(a[..]))
  {
    ghost var p := a[..];
    Copy(a, offset, data);
    ghost var q := a[..];
    StoreSlot(a, i, offset, |data|);
    Pointed(p, q, a[..], i, offset, data);
  }

  /** The new slot's number, or an error and no change. */
  method Insert(a: array<Byte>, data: Bytes) returns (rc: int)
    requires a.Length == PAGE_SIZE && PageOk(a[..]) && |data| < 0x1_0000
    modifies a
    ensures PageOk(a[..])
    ensures if data == [] then rc == DB_INVALID_ARGUMENT && a[..] == old(a[..])
            else if !old(HasRoom(Abs(a[..]), |data|)) then rc == DB_OUT_OF_MEMORY && a[..] == old(a[..])
            else
              && rc == old(NumSlots(a[..])) && Abs(a[..]) == old(WithTuple(Abs(a[..]), data))
              && OwnBytesOnly(old(a[..]), a[..], rc, old(Upper(Slots(a[..]))) - |data|, old(Upper(Slots(a[..]))))
  {
    if data == [] {
      return DB_INVALID_ARGUMENT;
    }
    ghost var p := a[..];
    var numSlots := ReadU32(a, NUM_TUPLES);
    var newSlotArrayEnd := SlotPos(numSlots + 1);
    var upper := FreeSpaceUpper(a);
    assert a[..] == p;
    var available := if upper > newSlotArrayEnd then upper - newSlotArrayEnd else 0;
    if available < |data| {
      return DB_OUT_OF_MEMORY;
    }
    AddTuple(a, numSlots, upper - |data|, data);
    rc := numSlots;
  }

  method AddTuple(a: array<Byte>, numSlots: nat, offset: nat, data: Bytes)
    requires a.Length == PAGE_SIZE && PageOk(a[..]) && data != [] && numSlots == NumSlots(a[..])
    requires SlotPos(numSlots + 1) <= offset && offset + |data| <= PAGE_SIZE && Below(offset + |data|, Slots(a[..]))
    modifies a
    ensures PageOk(a[..]) && NextPage(a[..]) == NextPage(old(a[..]))
    ensures Slots(a[..]) == old(Slots(a[..])) + [Slot(offset, |data|)]
    ensures Tuples(a[..]) == old(Tuples(a[..])) + [Some(data)]
    ensures OwnBytesOnly(old(a[..]), a[..], numSlots, offset, offset + |data|)
  {
    ghost var p := a[..];
    StoreTuple(a, numSlots, offset, data);
    ghost var q := a[..];
    StoreU32(a, NUM_TUPLES, numSlots + 1);
    ghost var r := a[..];
    Counted(p, q, r, numSlots, offset, data);
    TupleAdded(p, r, offset, data);
    StoreFreeSpace(a);
    OwnBytesTrans(p, r, a[..], numSlots, offset, offset + |data|);
  }

  lemma Counted(p: Bytes, q: Bytes, r: Bytes, i: nat, at: nat, data: Bytes)
    requires Points(p, q, i, at, data) && OnlyChanges(q, r, NUM_TUPLES, FREE_SPACE)
    ensures Points(p, r, i, at, data) && NextPage(r) == NextPage(q)
  {
    OwnBytesTrans(p, q, r, i, at, at + |data|);
    SameSlot(q, r, i);
    SameSlice(q, r, at, at + |data|);
    SameU32(q, r, NEXT_PAGE);
  }

  method Get(a: array<Byte>, slotId: int) returns (rc: int, data: Bytes)
    requires a.Length == PAGE_SIZE && PageOk(a[..])
    ensures if Live(Abs(a[..]), slotId) then rc == DB_OK && Tuples(a[..])[slotId] == Some(data)
            else rc == DB_PAGE_NOT_FOUND
  {
    if slotId < 0 || slotId >= ReadU32(a, NUM_TUPLES) {
      return DB_PAGE_NOT_FOUND, [];
    }
    assert Slots(a[..])[slotId] == SlotAt(a[..], slotId);
    var size := ReadU16(a, SlotPos(slotId) + 2);
    if size == 0 {
      return DB_PAGE_NOT_FOUND, [];
    }
    assert InBounds(Slots(a[..]), slotId);
    var offset := ReadU16(a, SlotPos(slotId));
    return DB_OK, a[offset..offset + size];
  }

  method Delete(a: array<Byte>, slotId: int) returns (rc: int)
    requires a.Length == PAGE_SIZE && PageOk(a[..])
    modifies a
    ensures PageOk(a[..])
    ensures if !old(Live(Abs(a[..]), slotId)) then rc == DB_PAGE_NOT_FOUND && a[..] == old(a[..])
            else
              && rc == DB_OK && Abs(a[..]) == old(Without(Abs(a[..]), slotId))
              && OwnBytesOnly(old(a[..]), a[..], slotId, PAGE_SIZE, PAGE_SIZE)
  {
    if slotId < 0 || slotId >= ReadU32(a, NUM_TUPLES) {
      return DB_PAGE_NOT_FOUND;
    }
    ghost var p := a[..];
    assert Slots(p)[slotId] == SlotAt(p, slotId);
    var size := ReadU16(a, SlotPos(slotId) + 2);
    if size == 0 {
      return DB_PAGE_NOT_FOUND;
    }
    StoreU16(a, SlotPos(slotId) + 2, 0);
    ghost var q := a[..];
    TupleRemoved(p, q, slotId);
    StoreFreeSpace(a);
    OwnBytesTrans(p, q, a[..], slotId, PAGE_SIZE, PAGE_SIZE);
    rc := DB_OK;
  }

  method Update(a: array<Byte>, slotId: int, data: Bytes) returns (rc: int)
    requires a.Length == PAGE_SIZE && PageOk(a[..]) && |data| < 0x1_0000
    modifies a
    ensures PageOk(a[..])
    ensures if data == [] then rc == DB_INVALID_ARGUMENT && a[..] == old(a[..])
            else if !old(Live(Abs(a[..]), slotId)) then rc == DB_PAGE_NOT_FOUND && a[..] == old(a[..])
            else if !old(UpdateFits(Abs(a[..]), slotId, |data|)) then rc == DB_OUT_OF_MEMORY && a[..] == old(a[..])
            else
              && rc == DB_OK && Abs(a[..]) == old(WithImage(Abs(a[..]), slotId, data))
              && OwnBytesOnly(old(a[..]), a[..], slotId, old(NewOffset(Abs(a[..]), slotId, |data|)),
                              old(NewOffset(Abs(a[..]), slotId, |data|)) + |data|)
  {
    if data == [] {
      return DB_INVALID_ARGUMENT;
    }
    if slotId < 0 || slotId >= ReadU32(a, NUM_TUPLES) {
      return DB_PAGE_NOT_FOUND;
    }
    ghost var p := a[..];
    assert Slots(p)[slotId] == SlotAt(p, slotId);
    var oldSize := ReadU16(a, SlotPos(slotId) + 2);
    if oldSize == 0 {
      return DB_PAGE_NOT_FOUND;
    }
    var oldOffset := ReadU16(a, SlotPos(slotId));
    if |data| <= oldSize {
      RewriteInPlace(a, slotId, oldOffset, data);
    } else {
      var upper := FreeSpaceUpper(a);
      assert a[..] == p;
      var slotArrayEnd := SlotPos(ReadU32(a, NUM_TUPLES));
      var available := if upper > slotArrayEnd then upper - slotArrayEnd else 0;
      if available < |data| {
        return DB_OUT_OF_MEMORY;
      }
      StoreTuple(a, slotId, upper - |data|, data);
    }
    FinishUpdate(a, p, slotId, data);
    rc := DB_OK;
  }

  method FinishUpdate(a: array<Byte>, ghost p: Bytes, i: nat, data: Bytes)
    requires a.Length == PAGE_SIZE && PageOk(p) && Live(Abs(p), i) && data != [] && UpdateFits(Abs(p), i, |data|)
    requires Points(p, a[..], i, NewOffset(Abs(p), i, |data|), data)
    requires NextPage(a[..]) == NextPage(p) && NumSlots(a[..]) == NumSlots(p)
    modifies a
    ensures PageOk(a[..]) && Abs(a[..]) == WithImage(Abs(p), i, data)
    ensures var at := NewOffset(Abs(p), i, |data|); OwnBytesOnly(p, a[..], i, at, at + |data|)
  {
    ghost var q, at := a[..], NewOffset(Abs(p), i, |data|);
    TupleReplaced(p, q, i, data);
    StoreFreeSpace(a);
    OwnBytesTrans(p, q, a[..], i, at, at + |data|);
  }

  /** A new image no longer than the old one: the slot's offset is not written. */
  method RewriteInPlace(a: array<Byte>, i: nat, offset: nat, data: Bytes)
    requires a.Length == PAGE_SIZE && SlotPos(i + 1) <= offset && offset + |data| <= PAGE_SIZE
    requires U16At(a[..], SlotPos(i)) == offset
    modifies a
    ensures Points(old(a[..]), a[..], i, offset, data)
    ensures NextPage(a[..]) == NextPage(old(a[..])) && NumSlots(a[..]) == NumSlots(old(a[..]))
  {
    ghost var p := a[..];
    Copy(a, offset, data);
    ghost var q := a[..];
    StoreU16(a, SlotPos(i) + 2, |data|);
    SameU16(p, q, SlotPos(i));
    SameU16(q, a[..], SlotPos(i));
    Pointed(p, q, a[..], i, offset, data);
  }

  /** page_header_set_next_page on a slotted page. */
  method SetNextPage(a: array<Byte>, next: int)
    requires a.Length == PAGE_SIZE && PageOk(a[..]) && -0x8000_0000 <= next < 0x8000_0000
    modifies a
    ensures PageOk(a[..]) && Abs(a[..]) == old(Abs(a[..])).(next := next)
  {
    ghost var p := a[..];
    StoreI32(a, NEXT_PAGE, next);
    ghost var q := a[..];
    SameU32(p, q, NUM_TUPLES);
    SameU32(p, q, FREE_SPACE);
    forall i | 0 <= i < NumSlots(p) ensures SlotAt(q, i) == Slots(p)[i] && TupleIn(q, Slots(p)[i]) == Tuples(p)[i] {
      SameSlot(p, q, i);
      assert InBounds(Slots(p), i);
      SameTuple(p, q, Slots(p), i);
    }
    SlotsAre(q, Slots(p));
    TuplesAre(q, Tuples(p));
  }

  /** What holds of every page that passed through these operations. */
  ghost predicate PageShape(pg: Page) {
    && Disjoint(pg.slots) && |pg.tuples| == |pg.slots|
    && forall i {:trigger pg.tuples[i]} :: 0 <= i < |pg.slots| ==>
         if pg.slots[i].size > 0 then pg.tuples[i].Some? && |pg.tuples[i].value| == pg.slots[i].size
         else pg.tuples[i] == None
  }

  lemma AbsShape(p: Bytes)
    requires PageOk(p)
    ensures PageShape(Abs(p))
  {
    forall i | 0 <= i < NumSlots(p) && Slots(p)[i].size > 0
      ensures Tuples(p)[i].Some? && |Tuples(p)[i].value| == Slots(p)[i].size
    {
      assert InBounds(Slots(p), i);
    }
  }

  lemma WithoutShape(pg: Page, i: nat)
    requires PageShape(pg) && Live(pg, i)
    ensures PageShape(Without(pg, i))
  {
    assert InBounds(pg.slots, i);
    SlotReplaced(pg.slots, i, pg.slots[i].(size := 0));
  }

  lemma WithImageShape(pg: Page, i: nat, data: Bytes)
    requires PageShape(pg) && Live(pg, i) && data != [] && UpdateFits(pg, i, |data|)
    ensures PageShape(WithImage(pg, i, data))
  {
    var t := Slot(NewOffset(pg, i, |data|), |data|);
    NewPlaceInBounds(pg, i, |data|);
    forall j | 0 <= j < |pg.slots| && j != i ensures Apart(pg.slots[j], t) {
      NewPlaceApart(pg, i, |data|, j);
    }
    SlotReplaced(pg.slots, i, t);
  }
}
