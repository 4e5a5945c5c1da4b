/** The bytes of pages (src/storage/page.h, src/storage/slotted_page.c) and of rows (src/storage/tuple.c), position by
    position. */
module Formats {
  import opened Wrappers
  import opened PageBytes
  import opened SchemaLayout
  import P = SlottedPage
  import C = TupleCodec
  import H = BpmHeap
  import D = DiskManager
  import N = BPlusTreeNode

  /** The `n` bytes at `at`, the least significant first. */
  function Little(p: Bytes, at: nat, n: nat): nat
    requires at + n <= |p|
    decreases n
  {
    if n == 0 then 0 else p[at] as int + 256 * Little(p, at + 1, n - 1)
  }

  lemma Fields(p: Bytes, at: nat)
    ensures at + 2 <= |p| ==> U16At(p, at) == Little(p, at, 2)
    ensures at + 4 <= |p| ==> U32At(p, at) == Little(p, at, 4)
    ensures at + 4 <= |p| ==> I32At(p, at) == if p[at + 3] < 128 then Little(p, at, 4) else Little(p, at, 4) - 0x1_0000_0000
  {
    if at + 4 <= |p| {
      assert Little(p, at, 4) == p[at] as int + 256 * (p[at + 1] as int + 256 * (p[at + 2] as int + 256 * p[at + 3] as int)) by {
        assert Little(p, at + 3, 1) == p[at + 3] as int;
        assert Little(p, at + 2, 2) == p[at + 2] as int + 256 * Little(p, at + 3, 1);
        assert Little(p, at + 1, 3) == p[at + 1] as int + 256 * Little(p, at + 2, 2);
      }
    }
    if at + 2 <= |p| {
      assert Little(p, at + 1, 1) == p[at + 1] as int;
    }
  }

  // ---------------------------------------------------------------------------------------------
  // Pages

  /** `size` bytes fit between the end of `count` slots and every live tuple. */
  ghost predicate Room(slots: seq<P.Slot>, count: nat, size: nat) {
    24 + 4 * count + size <= 4096
    && forall i {:trigger slots[i]} :: 0 <= i < |slots| && slots[i].size > 0 ==> 24 + 4 * count + size <= slots[i].offset
  }

  lemma RoomBelow(slots: seq<P.Slot>, count: nat, size: nat)
    ensures Room(slots, count, size) <==> 24 + 4 * count + size <= P.Upper(slots)
  {
    var u := P.Upper(slots);
    assert P.IsUpper(u, slots);
    if u != 4096 {
      var i :| 0 <= i < |slots| && slots[i].size > 0 && slots[i].offset == u;
    }
  }

  /** An insertion needs room for one slot more; a longer image needs room behind the slots there are. */
  lemma FitsIff(pg: P.Page, size: nat)
    ensures P.HasRoom(pg, size) <==> Room(pg.slots, |pg.slots| + 1, size)
    ensures forall i: nat {:trigger P.UpdateFits(pg, i, size)} :: P.Live(pg, i) ==>
              (P.UpdateFits(pg, i, size) <==> size <= pg.slots[i].size || Room(pg.slots, |pg.slots|, size))
    ensures P.MAX_TUPLE == 4068
  {
    RoomBelow(pg.slots, |pg.slots| + 1, size);
    RoomBelow(pg.slots, |pg.slots|, size);
  }

  /** The free space field at 16 says how many bytes fit behind the slots. */
  lemma FreeSpaceField(p: Bytes, m: nat)
    requires P.PageOk(p) && m > 0
    ensures var pg := P.Abs(p); |p| == 4096 && (m <= Little(p, 16, 4) <==> Room(pg.slots, |pg.slots|, m))
  {
    Fields(p, 16);
    RoomBelow(P.Abs(p).slots, |P.Abs(p).slots|, m);
  }

  /** Where the parts of a page are: the number of slots at 12, the next page at 20, and from 24 on the slots, each with
      the offset and the size of its tuple. */
  lemma PageFields(p: Bytes)
    requires P.PageOk(p)
    ensures var pg := P.Abs(p);
            && |p| == 4096 && |pg.slots| == |pg.tuples| == Little(p, 12, 4) && 24 + 4 * |pg.slots| <= 4096
            && pg.next == if p[23] < 128 then Little(p, 20, 4) else Little(p, 20, 4) - 0x1_0000_0000
  {
    Fields(p, 12);
    Fields(p, 20);
  }

  lemma SlotFields(p: Bytes, i: nat)
    requires P.PageOk(p) && i < |P.Abs(p).slots|
    ensures var pg := P.Abs(p);
            && |pg.tuples| == |pg.slots| && |p| == 4096 && 28 + 4 * i <= 4096
            && pg.slots[i] == P.Slot(Little(p, 24 + 4 * i, 2), Little(p, 26 + 4 * i, 2))
            && var t := pg.slots[i];
               pg.tuples[i] == if t.size > 0 && t.offset + t.size <= 4096 then Some(p[t.offset..t.offset + t.size]) else None
  {
    Fields(p, 24 + 4 * i);
    Fields(p, 26 + 4 * i);
  }

  /** The error codes and the numbers that stand for no page and no slot, and how many keys a page of the index
      holds; a page's own number stands in front. */
  lemma Constants()
    ensures P.PAGE_ID == 0 && H.INVALID_PAGE_ID == D.INVALID_PAGE_ID == -1 && H.INVALID_SLOT_ID == -1
    ensures P.DB_OK == C.DB_OK == D.DB_OK == 0 && C.DB_IO_ERROR == 1001
    ensures P.DB_PAGE_NOT_FOUND == D.DB_PAGE_NOT_FOUND == 1002
    ensures P.DB_INVALID_ARGUMENT == C.DB_INVALID_ARGUMENT == 3007 && P.DB_OUT_OF_MEMORY == 4001
    ensures N.LEAF_MAX_KEYS == 253 && N.INTERNAL_MAX_KEYS == 338 && N.INVALID_PAGE_ID == -1
  {
  }

  // ---------------------------------------------------------------------------------------------
  // Rows

  /** How many of the first `n` columns are of these types. */
  function Count(columns: seq<Column>, n: nat, kinds: set<ColumnType>): nat
    requires n <= |columns|
  {
    if n == 0 then 0 else Count(columns, n - 1, kinds) + if columns[n - 1].kind in kinds then 1 else 0
  }

  lemma {:induction false} FixedWidths(columns: seq<Column>, n: nat)
    requires n <= |columns|
    ensures FixedBefore(columns, n) == 8 * Count(columns, n, {TInteger, TFloat}) + Count(columns, n, {TBoolean})
  {
    if n > 0 {
      FixedWidths(columns, n - 1);
    }
  }

  /** The first byte of the field or string of column `i`. */
  function Position(s: Schema, cells: seq<C.Cell>, i: nat): nat
    requires i < |s.columns| == |cells|
  {
    var bitmap, n := (|s.columns| + 7) / 8, |s.columns|;
    if s.columns[i].kind == TVarchar
    then bitmap + 8 * Count(s.columns, n, {TInteger, TFloat}) + Count(s.columns, n, {TBoolean}) + StringBytes(s, cells, i)
    else bitmap + 8 * Count(s.columns, i, {TInteger, TFloat}) + Count(s.columns, i, {TBoolean})
  }

  /** The bytes of the strings of the first `n` columns, with the four that each length takes. */
  function StringBytes(s: Schema, cells: seq<C.Cell>, n: nat): nat
    requires n <= |s.columns| == |cells|
  {
    if n == 0 then 0
    else
      StringBytes(s, cells, n - 1)
      + if s.columns[n - 1].kind != TVarchar then 0 else if cells[n - 1].Text? then 4 + |cells[n - 1].text| else 4
  }

  lemma {:induction false} StringsLie(s: Schema, cells: seq<C.Cell>, n: nat)
    requires n <= |s.columns| == |cells|
    ensures C.VarsLength(s, cells, n) == StringBytes(s, cells, n)
  {
    if n > 0 {
      StringsLie(s, cells, n - 1);
    }
  }

  lemma PositionOf(s: Schema, cells: seq<C.Cell>, i: nat)
    requires Built(s) && i < |s.columns| == |cells|
    ensures s.columns[i].kind == TVarchar ==> Position(s, cells, i) == C.VarStart(s, cells, i)
    ensures s.columns[i].kind != TVarchar ==> Position(s, cells, i) == s.bitmapSize + s.columns[i].fixedOffset
  {
    assert ColumnBuilt(s, i);
    FixedWidths(s.columns, i);
    FixedWidths(s.columns, |s.columns|);
    StringsLie(s, cells, i);
  }

  const BITS := [1, 2, 4, 8, 16, 32, 64, 128]

  lemma {:induction false} BitAt(b: nat, k: nat)
    requires k < 8
    ensures C.HasBit(b, k) <==> (b / BITS[k]) % 2 == 1
  {
    if k > 0 {
      BitAt(b / 2, k - 1);
      assert b / 2 / BITS[k - 1] == b / BITS[k];
    }
  }

  lemma Field64(b: Bytes, at: nat)
    requires at + 8 <= |b|
    ensures C.U64At(b, at) == Little(b, at, 4) + 0x1_0000_0000 * Little(b, at + 4, 4)
    ensures C.I64At(b, at) == C.U64At(b, at) - if b[at + 7] < 128 then 0 else 0x1_0000_0000_0000_0000
  {
    Fields(b, at);
    Fields(b, at + 4);
  }

  lemma RowBits(s: Schema, cells: seq<C.Cell>, b: Bytes, i: nat)
    requires Built(s) && C.Conforms(s, cells) && C.Encodes(s, cells, b) && i < |cells|
    ensures i / 8 < |b| && ((b[i / 8] / BITS[i % 8]) % 2 == 1 <==> cells[i] == C.Nothing)
  {
    assert C.ColumnEncoded(s, cells, b, i);
    BitAt(b[i / 8], i % 8);
  }

  /** The cell stands at the position, integers and doubles in eight bytes, booleans in one, strings behind their
      lengths. */
  ghost predicate StandsAt(b: Bytes, at: nat, cell: C.Cell, isString: bool) {
    match cell
    case Integer(v) =>
      at + 8 <= |b| && v == Little(b, at, 4) + 0x1_0000_0000 * Little(b, at + 4, 4)
                            - if b[at + 7] < 128 then 0 else 0x1_0000_0000_0000_0000
    case Double(bits) => at + 8 <= |b| && bits == Little(b, at, 4) + 0x1_0000_0000 * Little(b, at + 4, 4)
    case Boolean(v) => at < |b| && b[at] == if v then 1 else 0
    case Text(text) => at + 4 + |text| <= |b| && Little(b, at, 4) == |text| && b[at + 4..at + 4 + |text|] == text
    case Nothing => isString ==> at + 4 <= |b| && Little(b, at, 4) == 0
  }

  lemma FieldStands(b: Bytes, at: nat, cell: C.Cell)
    requires C.FieldIs(b, at, cell) && !cell.Text?
    ensures StandsAt(b, at, cell, false)
  {
    if at + 8 <= |b| {
      Field64(b, at);
    }
  }

  lemma StringStands(b: Bytes, at: nat, cell: C.Cell)
    requires C.StringIs(b, at, C.Chars(cell)) && (cell.Text? || cell.Nothing?)
    ensures StandsAt(b, at, cell, true)
  {
    Fields(b, at);
  }

  /** What stands where in the image of a row: bit i of the bitmap says whether column i is NULL, and the cell stands
      at its position. */
  lemma RowFields(s: Schema, cells: seq<C.Cell>, b: Bytes, i: nat)
    requires Built(s) && C.Conforms(s, cells) && C.Encodes(s, cells, b) && i < |cells|
    ensures i / 8 < |b| && ((b[i / 8] / BITS[i % 8]) % 2 == 1 <==> cells[i] == C.Nothing)
    ensures StandsAt(b, Position(s, cells, i), cells[i], s.columns[i].kind == TVarchar)
  {
    RowBits(s, cells, b, i);
    PositionOf(s, cells, i);
    assert C.Fits(s.columns[i].kind, cells[i]) && C.ColumnEncoded(s, cells, b, i);
    if s.columns[i].kind == TVarchar {
      StringStands(b, Position(s, cells, i), cells[i]);
    } else {
      FieldStands(b, Position(s, cells, i), cells[i]);
    }
  }

  /** A row of NULLs fits every schema; its strings still take the four bytes of their lengths. */
  lemma NullRow(s: Schema)
    ensures var nulls := seq(|s.columns|, _ => C.Nothing);
            && C.Conforms(s, nulls)
            && C.Size(s, nulls) == s.bitmapSize + s.fixedSize + 4 * Count(s.columns, |s.columns|, {TVarchar})
  {
    var nulls := seq(|s.columns|, _ => C.Nothing);
    StringsLie(s, nulls, |s.columns|);
    NullStrings(s, nulls, |s.columns|);
  }

  lemma {:induction false} NullStrings(s: Schema, cells: seq<C.Cell>, n: nat)
    requires n <= |s.columns| == |cells| && forall i {:trigger cells[i]} :: 0 <= i < n ==> cells[i] == C.Nothing
    ensures StringBytes(s, cells, n) == 4 * Count(s.columns, n, {TVarchar})
  {
    if n > 0 {
      NullStrings(s, cells, n - 1);
      assert cells[n - 1] == C.Nothing;
    }
  }

  /** schema_max_tuple_size is attained by strings as long as their columns allow. */
  lemma {:induction false} MaxAttained(s: Schema, cells: seq<C.Cell>, n: nat)
    requires n <= |s.columns| == |cells|
    requires forall i: nat {:trigger cells[i]} :: i < n ==> |C.Chars(cells[i])| == s.columns[i].maxLength
    ensures C.VarStart(s, cells, n) == s.bitmapSize + s.fixedSize + VarMax(s.columns, n)
  {
    if n > 0 {
      MaxAttained(s, cells, n - 1);
      assert |C.Chars(cells[n - 1])| == s.columns[n - 1].maxLength;
    }
  }
}
