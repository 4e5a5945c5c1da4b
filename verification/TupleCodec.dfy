/** Rows as bytes (src/storage/tuple.c): a bitmap of NULLs, the fields of fixed width, and the strings with
    their lengths. */
module TupleCodec {
  import opened PageBytes
  import opened SchemaLayout

  const DB_OK: int := 0
  const DB_IO_ERROR: int := 1001
  const DB_INVALID_ARGUMENT: int := 3007

  /** A double is its 64 bits; a string is its bytes without the terminating zero. */
  datatype Cell = Nothing | Integer(i: int) | Double(bits: nat) | Boolean(b: bool) | Text(text: Bytes)

  predicate Fits(kind: ColumnType, cell: Cell) {
    match cell
    case Nothing => true
    case Integer(i) => kind.TInteger? && -0x8000_0000_0000_0000 <= i < 0x8000_0000_0000_0000
    case Double(bits) => kind.TFloat? && bits < 0x1_0000_0000_0000_0000
    case Boolean(_) => kind.TBoolean?
    case Text(text) => kind.TVarchar? && |text| < 0x1_0000_0000 && 0 !in text
  }

  predicate Conforms(s: Schema, cells: seq<Cell>) {
    |cells| == |s.columns| && forall i {:trigger cells[i]} :: 0 <= i < |cells| ==> Fits(s.columns[i].kind, cells[i])
  }

  // ---------------------------------------------------------------------------------------------
  // Bits and wide integers

  function Power(k: nat): nat {
    if k == 0 then 1 else 2 * Power(k - 1)
  }

  predicate HasBit(b: nat, k: nat) {
    if k == 0 then b % 2 == 1 else HasBit(b / 2, k - 1)
  }

  /** `b | 1 << k`. */
  function WithBit(b: Byte, k: nat): (r: Byte)
    requires k < 8
    ensures forall j: nat {:trigger HasBit(r, j)} :: HasBit(r, j) == (j == k || HasBit(b, j))
  {
    if HasBit(b, k) then b
    else
      BitFits(b, k, 8);
      assert Power(8) == 256 by { assert Power(4) == 16; }
      var r: Byte := b as int + Power(k);
      assert forall j: nat {:trigger HasBit(r, j)} :: HasBit(r, j) == (j == k || HasBit(b, j)) by {
        forall j: nat ensures HasBit(r, j) == (j == k || HasBit(b, j)) {
          BitAdded(b, k, j);
        }
      }
      r
  }

  lemma {:induction false} BitFits(b: nat, k: nat, n: nat)
    requires k < n && b < Power(n) && !HasBit(b, k)
    ensures b + Power(k) < Power(n)
  {
    if k > 0 {
      BitFits(b / 2, k - 1, n - 1);
    }
  }

  /** Adding a power of two whose bit is clear sets that bit and no other. */
  lemma {:induction false} BitAdded(b: nat, k: nat, j: nat)
    requires !HasBit(b, k)
    ensures HasBit(b + Power(k), j) == (j == k || HasBit(b, j))
    decreases k
  {
    if k == 0 {
      assert (b + 1) / 2 == b / 2;
    } else {
      assert (b + Power(k)) / 2 == b / 2 + Power(k - 1);
      if j > 0 {
        BitAdded(b / 2, k - 1, j - 1);
      }
    }
  }

  function U64At(p: Bytes, at: nat): (v: nat)
    requires at + 8 <= |p|
    ensures v < 0x1_0000_0000_0000_0000
  {
    U32At(p, at) + 0x1_0000_0000 * U32At(p, at + 4)
  }

  function I64At(p: Bytes, at: nat): int
    requires at + 8 <= |p|
  {
    if U64At(p, at) < 0x8000_0000_0000_0000 then U64At(p, at) else U64At(p, at) - 0x1_0000_0000_0000_0000
  }

  lemma SameU64(p: Bytes, q: Bytes, at: nat)
    requires at + 8 <= |p| && Agree(p, q, at, at + 8)
    ensures U64At(q, at) == U64At(p, at) && I64At(q, at) == I64At(p, at)
  {
    SameU32(p, q, at);
    SameU32(p, q, at + 4);
  }

  method StoreU64(a: array<Byte>, at: nat, v: nat)
    requires at + 8 <= a.Length && v < 0x1_0000_0000_0000_0000
    modifies a
    ensures OnlyChanges(old(a[..]), a[..], at, at + 8) && U64At(a[..], at) == v
  {
    StoreU32(a, at, v % 0x1_0000_0000);
    ghost var low := a[..];
    StoreU32(a, at + 4, v / 0x1_0000_0000);
    SameU32(low, a[..], at);
    AgreeTrans(old(a[..]), low, a[..], 0, at);
    AgreeTrans(old(a[..]), low, a[..], at + 8, a.Length);
  }

  // ---------------------------------------------------------------------------------------------
  // The layout of a row

  function Chars(cell: Cell): Bytes {
    if cell.Text? then cell.text else []
  }

  function VarsLength(s: Schema, cells: seq<Cell>, n: nat): nat
    requires n <= |s.columns| == |cells|
  {
    if n == 0 then 0
    else VarsLength(s, cells, n - 1) + (if s.columns[n - 1].kind.TVarchar? then 4 + |Chars(cells[n - 1])| else 0)
  }

  function VarStart(s: Schema, cells: seq<Cell>, i: nat): nat
    requires i <= |s.columns| == |cells|
  {
    s.bitmapSize + s.fixedSize + VarsLength(s, cells, i)
  }

  function Size(s: Schema, cells: seq<Cell>): nat
    requires |s.columns| == |cells|
  {
    VarStart(s, cells, |cells|)
  }

  predicate NullBit(b: Bytes, i: nat)
    requires i / 8 < |b|
  {
    HasBit(b[i / 8], i % 8)
  }

  ghost predicate FieldIs(b: Bytes, at: nat, cell: Cell) {
    match cell
    case Integer(i) => at + 8 <= |b| && I64At(b, at) == i
    case Double(bits) => at + 8 <= |b| && U64At(b, at) == bits
    case Boolean(v) => at < |b| && b[at] == if v then 1 else 0
    case _ => true
  }

  ghost predicate StringIs(b: Bytes, at: nat, chars: Bytes) {
    at + 4 + |chars| <= |b| && U32At(b, at) == |chars| && b[at + 4..at + 4 + |chars|] == chars
  }

  ghost predicate ColumnEncoded(s: Schema, cells: seq<Cell>, b: Bytes, i: nat)
    requires i < |s.columns| == |cells|
  {
    && i / 8 < |b| && NullBit(b, i) == cells[i].Nothing?
    && if s.columns[i].kind.TVarchar? then StringIs(b, VarStart(s, cells, i), Chars(cells[i]))
       else FieldIs(b, s.bitmapSize + s.columns[i].fixedOffset, cells[i])
  }

  /** The bytes are an image of the row.  The fixed fields of NULLs may hold anything. */
  ghost predicate Encodes(s: Schema, cells: seq<Cell>, b: Bytes) {
    && |s.columns| == |cells| && |b| == Size(s, cells)
    && forall i {:trigger ColumnEncoded(s, cells, b, i)} :: 0 <= i < |cells| ==> ColumnEncoded(s, cells, b, i)
  }

  lemma {:induction false} VarsGrow(s: Schema, cells: seq<Cell>, i: nat, j: nat)
    requires i < j <= |s.columns| == |cells|
    ensures VarsLength(s, cells, i) + (if s.columns[i].kind.TVarchar? then 4 + |Chars(cells[i])| else 0) <= VarsLength(s, cells, j)
    decreases j
  {
    if i < j - 1 {
      VarsGrow(s, cells, i, j - 1);
    }
  }

  lemma FieldInside(s: Schema, i: nat)
    requires Built(s) && i < |s.columns| && !s.columns[i].kind.TVarchar?
    ensures s.columns[i].fixedOffset + FixedWidth(s.columns[i].kind) <= s.fixedSize
  {
    assert ColumnBuilt(s, i);
    FixedGrows(s.columns, i, |s.columns|);
  }

  // ---------------------------------------------------------------------------------------------
  // Writing

  /** tuple_serialized_size. */
  method SerializedSize(s: Schema, cells: seq<Cell>) returns (size: nat)
    requires |s.columns| == |cells|
    ensures size == Size(s, cells)
  {
    size := s.bitmapSize + s.fixedSize;
    for i := 0 to |s.columns|
      invariant size == VarStart(s, cells, i)
    {
      if s.columns[i].kind.TVarchar? {
        size := size + (if cells[i].Text? then 4 + |cells[i].text| else 4);
      }
    }
  }

  method WriteBitmap(s: Schema, cells: seq<Cell>, buf: array<Byte>)
    requires Built(s) && |s.columns| == |cells| && s.bitmapSize <= buf.Length
    modifies buf
    ensures forall i: nat {:trigger cells[i]} :: i < |cells| ==> NullBit(buf[..], i) == cells[i].Nothing?
    ensures Agree(old(buf[..]), buf[..], s.bitmapSize, buf.Length)
  {
    for i := 0 to s.bitmapSize
      invariant forall k {:trigger buf[k]} :: 0 <= k < buf.Length ==> buf[k] == if k < i then 0 else old(buf[k])
    {
      buf[i] := 0;
    }
    forall i: nat, k: nat | i < 8 * s.bitmapSize && k == i / 8 ensures !HasBit(buf[k], i % 8) {
      NoBits(i % 8);
    }
    for i := 0 to |s.columns|
      invariant forall k {:trigger buf[k]} :: s.bitmapSize <= k < buf.Length ==> buf[k] == old(buf[k])
      invariant forall j: nat {:trigger NullBit(buf[..], j)} :: j < 8 * s.bitmapSize ==>
                  NullBit(buf[..], j) == (j < i && cells[j].Nothing?)
    {
      if cells[i].Nothing? {
        ghost var was := buf[..];
        buf[i / 8] := WithBit(buf[i / 8], i % 8);
        forall j: nat {:trigger NullBit(buf[..], j)} | j < 8 * s.bitmapSize
          ensures NullBit(buf[..], j) == (j == i || NullBit(was, j))
        {
          assert j / 8 == i / 8 && j % 8 == i % 8 ==> j == i;
        }
      }
    }
    forall i: nat {:trigger cells[i]} | i < |cells| ensures NullBit(buf[..], i) == cells[i].Nothing? {
      assert i < 8 * s.bitmapSize;
    }
  }

  lemma {:induction false} NoBits(k: nat)
    ensures !HasBit(0, k)
  {
    if k > 0 {
      NoBits(k - 1);
    }
  }

  lemma SameFieldAt(s: Schema, p: Bytes, q: Bytes, i: nat, cell: Cell)
    requires i < |s.columns| && Fits(s.columns[i].kind, cell) && !s.columns[i].kind.TVarchar?
    requires var at := s.bitmapSize + s.columns[i].fixedOffset;
             FieldIs(p, at, cell) && Agree(p, q, at, at + FixedWidth(s.columns[i].kind))
    ensures FieldIs(q, s.bitmapSize + s.columns[i].fixedOffset, cell)
  {
    var at := s.bitmapSize + s.columns[i].fixedOffset;
    match cell
    case Integer(_) => SameU64(p, q, at);
    case Double(_) => SameU64(p, q, at);
    case Boolean(_) => assert SameAt(p, q, at);
    case _ =>
  }

  method WriteField(buf: array<Byte>, at: nat, kind: ColumnType, cell: Cell)
    requires Fits(kind, cell) && !kind.TVarchar? && at + FixedWidth(kind) <= buf.Length
    modifies buf
    ensures FieldIs(buf[..], at, cell) && OnlyChanges(old(buf[..]), buf[..], at, at + FixedWidth(kind))
  {
    match cell {
      case Integer(i) => StoreU64(buf, at, if i < 0 then i + 0x1_0000_0000_0000_0000 else i);
      case Double(bits) => StoreU64(buf, at, bits);
      case Boolean(b) => buf[at] := if b then 1 else 0;
      case _ =>
    }
  }

  ghost predicate FieldsWritten(s: Schema, cells: seq<Cell>, b: Bytes, n: nat)
    requires n <= |s.columns| == |cells|
  {
    forall i {:trigger cells[i]} :: 0 <= i < n && !s.columns[i].kind.TVarchar? ==>
      FieldIs(b, s.bitmapSize + s.columns[i].fixedOffset, cells[i])
  }

  lemma EarlierField(s: Schema, cells: seq<Cell>, p: Bytes, q: Bytes, i: nat, n: nat)
    requires Built(s) && Conforms(s, cells) && i < n < |cells|
    requires !s.columns[i].kind.TVarchar? && !s.columns[n].kind.TVarchar?
    requires FieldIs(p, s.bitmapSize + s.columns[i].fixedOffset, cells[i])
    requires Agree(p, q, 0, s.bitmapSize + s.columns[n].fixedOffset)
    ensures FieldIs(q, s.bitmapSize + s.columns[i].fixedOffset, cells[i])
  {
    FieldsApart(s, i, n);
    SameFieldAt(s, p, q, i, cells[i]);
  }

  /** Writing one field leaves the ones before it alone. */
  lemma FieldWritten(s: Schema, cells: seq<Cell>, p: Bytes, q: Bytes, n: nat)
    requires Built(s) && Conforms(s, cells) && n < |cells| && !s.columns[n].kind.TVarchar?
    requires FieldsWritten(s, cells, p, n)
    requires var at := s.bitmapSize + s.columns[n].fixedOffset; Agree(p, q, 0, at) && FieldIs(q, at, cells[n])
    ensures FieldsWritten(s, cells, q, n + 1)
  {
    forall i {:trigger cells[i]} | 0 <= i < n && !s.columns[i].kind.TVarchar?
      ensures FieldIs(q, s.bitmapSize + s.columns[i].fixedOffset, cells[i])
    {
      EarlierField(s, cells, p, q, i, n);
    }
  }

  method WriteColumn(s: Schema, ghost cells: seq<Cell>, buf: array<Byte>, i: nat, cell: Cell)
    requires Built(s) && Conforms(s, cells) && i < |cells| && cell == cells[i] && s.bitmapSize + s.fixedSize <= buf.Length
    requires FieldsWritten(s, cells, buf[..], i) && !s.columns[i].kind.TVarchar?
    modifies buf
    ensures FieldsWritten(s, cells, buf[..], i + 1)
    ensures OnlyChanges(old(buf[..]), buf[..], s.bitmapSize, s.bitmapSize + s.fixedSize)
  {
    FieldInside(s, i);
    WriteField(buf, s.bitmapSize + s.columns[i].fixedOffset, s.columns[i].kind, cell);
    FieldWritten(s, cells, old(buf[..]), buf[..], i);
  }

  method WriteFixed(s: Schema, cells: seq<Cell>, buf: array<Byte>)
    requires Built(s) && Conforms(s, cells) && s.bitmapSize + s.fixedSize <= buf.Length
    modifies buf
    ensures FieldsWritten(s, cells, buf[..], |cells|)
    ensures OnlyChanges(old(buf[..]), buf[..], s.bitmapSize, s.bitmapSize + s.fixedSize)
  {
    for i := 0 to |cells|
      invariant FieldsWritten(s, cells, buf[..], i)
      invariant OnlyChanges(old(buf[..]), buf[..], s.bitmapSize, s.bitmapSize + s.fixedSize)
    {
      if !s.columns[i].kind.TVarchar? && !cells[i].Nothing? {
        ghost var was := buf[..];
        WriteColumn(s, cells, buf, i, cells[i]);
        AgreeTrans(old(buf[..]), was, buf[..], 0, s.bitmapSize);
        AgreeTrans(old(buf[..]), was, buf[..], s.bitmapSize + s.fixedSize, buf.Length);
      }
    }
  }

  ghost predicate StringsWritten(s: Schema, cells: seq<Cell>, b: Bytes, n: nat)
    requires n <= |s.columns| == |cells|
  {
    forall i {:trigger cells[i]} :: 0 <= i < n && s.columns[i].kind.TVarchar? ==>
      StringIs(b, VarStart(s, cells, i), Chars(cells[i]))
  }

  lemma SameString(p: Bytes, q: Bytes, at: nat, chars: Bytes)
    requires StringIs(p, at, chars) && Agree(p, q, at, at + 4 + |chars|)
    ensures StringIs(q, at, chars)
  {
    SameU32(p, q, at);
    SameSlice(p, q, at + 4, at + 4 + |chars|);
  }

  lemma StringWritten(s: Schema, cells: seq<Cell>, p: Bytes, q: Bytes, n: nat)
    requires n < |cells| == |s.columns| && s.columns[n].kind.TVarchar? && StringsWritten(s, cells, p, n)
    requires Agree(p, q, 0, VarStart(s, cells, n)) && StringIs(q, VarStart(s, cells, n), Chars(cells[n]))
    ensures StringsWritten(s, cells, q, n + 1)
  {
    forall i {:trigger cells[i]} | 0 <= i < n && s.columns[i].kind.TVarchar?
      ensures StringIs(q, VarStart(s, cells, i), Chars(cells[i]))
    {
      VarsGrow(s, cells, i, n);
      SameString(p, q, VarStart(s, cells, i), Chars(cells[i]));
    }
  }

  method WriteString(buf: array<Byte>, at: nat, chars: Bytes) returns (next: nat)
    requires at + 4 + |chars| <= buf.Length && |chars| < 0x1_0000_0000
    modifies buf
    ensures StringIs(buf[..], at, chars) && next == at + 4 + |chars|
    ensures OnlyChanges(old(buf[..]), buf[..], at, next)
  {
    StoreU32(buf, at, |chars|);
    ghost var was := buf[..];
    Copy(buf, at + 4, chars);
    SameU32(was, buf[..], at);
    next := at + 4 + |chars|;
    AgreeTrans(old(buf[..]), was, buf[..], 0, at);
    AgreeTrans(old(buf[..]), was, buf[..], next, buf.Length);
  }

  method WriteStrings(s: Schema, cells: seq<Cell>, buf: array<Byte>) returns (offset: nat)
    requires Conforms(s, cells) && Size(s, cells) <= buf.Length
    modifies buf
    ensures offset == Size(s, cells) && StringsWritten(s, cells, buf[..], |cells|)
    ensures OnlyChanges(old(buf[..]), buf[..], s.bitmapSize + s.fixedSize, offset)
  {
    offset := s.bitmapSize + s.fixedSize;
    for i := 0 to |cells|
      invariant offset == VarStart(s, cells, i) && StringsWritten(s, cells, buf[..], i)
      invariant OnlyChanges(old(buf[..]), buf[..], s.bitmapSize + s.fixedSize, offset)
    {
      if s.columns[i].kind.TVarchar? {
        VarsGrow(s, cells, i, |cells|);
        ghost var was := buf[..];
        offset := WriteString(buf, offset, if cells[i].Text? then cells[i].text else []);
        StringWritten(s, cells, was, buf[..], i);
        AgreeTrans(old(buf[..]), was, buf[..], 0, s.bitmapSize + s.fixedSize);
        AgreeTrans(old(buf[..]), was, buf[..], offset, buf.Length);
      }
    }
  }

  /** tuple_serialize: as many bytes as tuple_serialized_size says, and nothing behind them is touched. */
  method Serialize(s: Schema, cells: seq<Cell>, buf: array<Byte>) returns (size: nat)
    requires Built(s) && Conforms(s, cells) && Size(s, cells) <= buf.Length
    modifies buf
    ensures size == Size(s, cells) && Encodes(s, cells, buf[..size])
    ensures Agree(old(buf[..]), buf[..], size, buf.Length)
  {
    ghost var b0 := buf[..];
    WriteBitmap(s, cells, buf);
    ghost var b1 := buf[..];
    WriteFixed(s, cells, buf);
    ghost var b2 := buf[..];
    size := WriteStrings(s, cells, buf);
    Assembled(s, cells, b1, b2, buf[..], buf[..size]);
    AgreeTrans(b0, b1, b2, size, buf.Length);
    AgreeTrans(b0, b2, buf[..], size, buf.Length);
  }

  lemma Assembled(s: Schema, cells: seq<Cell>, b1: Bytes, b2: Bytes, b3: Bytes, b: Bytes)
    requires Built(s) && Conforms(s, cells) && Size(s, cells) <= |b3| && b == b3[..Size(s, cells)]
    requires |b1| == |b2| == |b3|
    requires forall i: nat {:trigger cells[i]} :: i < |cells| ==> NullBit(b1, i) == cells[i].Nothing?
    requires OnlyChanges(b1, b2, s.bitmapSize, s.bitmapSize + s.fixedSize) && FieldsWritten(s, cells, b2, |cells|)
    requires OnlyChanges(b2, b3, s.bitmapSize + s.fixedSize, Size(s, cells)) && StringsWritten(s, cells, b3, |cells|)
    ensures Encodes(s, cells, b)
  {
    forall i: nat | i < |cells| ensures ColumnEncoded(s, cells, b, i) {
      assert SameAt(b1, b2, i / 8) && SameAt(b2, b3, i / 8);
      if s.columns[i].kind.TVarchar? {
        StringInPrefix(s, cells, b3, i);
      } else {
        FieldInPrefix(s, cells, b2, b3, i);
      }
    }
  }

  lemma StringInPrefix(s: Schema, cells: seq<Cell>, b: Bytes, i: nat)
    requires Conforms(s, cells) && Size(s, cells) <= |b| && i < |cells| && s.columns[i].kind.TVarchar?
    requires StringIs(b, VarStart(s, cells, i), Chars(cells[i]))
    ensures StringIs(b[..Size(s, cells)], VarStart(s, cells, i), Chars(cells[i]))
  {
    VarsGrow(s, cells, i, |cells|);
    var p, at, chars := b[..Size(s, cells)], VarStart(s, cells, i), Chars(cells[i]);
    assert p[at + 4..at + 4 + |chars|] == b[at + 4..at + 4 + |chars|];
  }

  lemma FieldInPrefix(s: Schema, cells: seq<Cell>, b2: Bytes, b3: Bytes, i: nat)
    requires Built(s) && Conforms(s, cells) && Size(s, cells) <= |b3| && i < |cells| && !s.columns[i].kind.TVarchar?
    requires Agree(b2, b3, 0, s.bitmapSize + s.fixedSize)
    requires FieldIs(b2, s.bitmapSize + s.columns[i].fixedOffset, cells[i])
    ensures FieldIs(b3[..Size(s, cells)], s.bitmapSize + s.columns[i].fixedOffset, cells[i])
  {
    FieldInside(s, i);
    SameFieldAt(s, b2, b3, i, cells[i]);
  }

  /** The bound of schema_max_tuple_size holds if no string is longer than its column allows. */
  lemma {:induction false} WithinMax(s: Schema, cells: seq<Cell>, n: nat)
    requires n <= |s.columns| == |cells|
    requires forall i {:trigger cells[i]} :: 0 <= i < |cells| ==> |Chars(cells[i])| <= s.columns[i].maxLength
    ensures VarStart(s, cells, n) <= s.bitmapSize + s.fixedSize + VarMax(s.columns, n)
    decreases n
  {
    if n > 0 {
      WithinMax(s, cells, n - 1);
      assert |Chars(cells[n - 1])| <= s.columns[n - 1].maxLength;
    }
  }

  // ---------------------------------------------------------------------------------------------
  // Reading

  datatype Result = Ok(cells: seq<Cell>) | Err(rc: int)

  /** A C string ends at its first zero. */
  function UpToZero(b: Bytes): (r: Bytes)
    ensures 0 !in b ==> r == b
    ensures 0 !in r
  {
    if b == [] || b[0] == 0 then [] else [b[0]] + UpToZero(b[1..])
  }

  function FixedCell(s: Schema, b: Bytes, i: nat): Cell
    requires Built(s) && s.bitmapSize + s.fixedSize <= |b| && i < |s.columns| && !s.columns[i].kind.TVarchar?
  {
    FieldInside(s, i);
    var at := s.bitmapSize + s.columns[i].fixedOffset;
    if NullBit(b, i) then Nothing
    else match s.columns[i].kind
      case TInteger => Integer(I64At(b, at))
      case TFloat => Double(U64At(b, at))
      case TBoolean => Boolean(b[at] != 0)
  }

  function Before(cell: Cell, r: Result): Result {
    if r.Ok? then Ok([cell] + r.cells) else r
  }

  /** The columns from `i` on; `offset` is where the next string is. */
  function DecodeFrom(s: Schema, b: Bytes, i: nat, offset: nat): (r: Result)
    requires Built(s) && s.bitmapSize + s.fixedSize <= |b| && i <= |s.columns|
    ensures r.Ok? ==> |r.cells| == |s.columns| - i
    decreases |s.columns| - i
  {
    if i == |s.columns| then Ok([])
    else if !s.columns[i].kind.TVarchar? then Before(FixedCell(s, b, i), DecodeFrom(s, b, i + 1, offset))
    else if offset + 4 > |b| then Err(DB_IO_ERROR)
    else
      var next := offset + 4 + U32At(b, offset);
      if NullBit(b, i) then Before(Nothing, DecodeFrom(s, b, i + 1, next))
      else if next > |b| then Err(DB_IO_ERROR)
      else Before(Text(UpToZero(b[offset + 4..next])), DecodeFrom(s, b, i + 1, next))
  }

  function Decode(s: Schema, b: Bytes): Result
    requires Built(s) && s.bitmapSize + s.fixedSize <= |b|
  {
    DecodeFrom(s, b, 0, s.bitmapSize + s.fixedSize)
  }

  /** Column `i`, its string at `offset` up to `next`, holds the cell. */
  ghost predicate Holds(s: Schema, b: Bytes, i: nat, offset: nat, next: nat, cell: Cell)
    requires Built(s) && i < |s.columns| && s.bitmapSize + s.fixedSize <= |b|
  {
    if !s.columns[i].kind.TVarchar? then cell == FixedCell(s, b, i) && next == offset
    else
      && offset + 4 <= |b| && next == offset + 4 + U32At(b, offset) <= |b| && NullBit(b, i) == cell.Nothing?
      && (!cell.Nothing? ==> cell == Text(UpToZero(b[offset + 4..next])))
  }

  lemma CellRead(s: Schema, cells: seq<Cell>, b: Bytes, i: nat)
    requires Built(s) && Conforms(s, cells) && Encodes(s, cells, b) && i < |cells| && s.bitmapSize + s.fixedSize <= |b|
    ensures Holds(s, b, i, VarStart(s, cells, i), VarStart(s, cells, i + 1), cells[i])
  {
    assert Fits(s.columns[i].kind, cells[i]) && ColumnEncoded(s, cells, b, i);
    if !s.columns[i].kind.TVarchar? {
      FieldInside(s, i);
    } else {
      VarsGrow(s, cells, i, |cells|);
    }
  }

  lemma StepFrom(s: Schema, b: Bytes, i: nat, offset: nat, next: nat, cell: Cell)
    requires Built(s) && i < |s.columns| && s.bitmapSize + s.fixedSize <= |b| && Holds(s, b, i, offset, next, cell)
    ensures DecodeFrom(s, b, i, offset) == Before(cell, DecodeFrom(s, b, i + 1, next))
  {
  }

  lemma StepRead(s: Schema, cells: seq<Cell>, b: Bytes, i: nat)
    requires Built(s) && Conforms(s, cells) && Encodes(s, cells, b) && i < |cells| && s.bitmapSize + s.fixedSize <= |b|
    ensures DecodeFrom(s, b, i, VarStart(s, cells, i)) == Before(cells[i], DecodeFrom(s, b, i + 1, VarStart(s, cells, i + 1)))
  {
    CellRead(s, cells, b, i);
    StepFrom(s, b, i, VarStart(s, cells, i), VarStart(s, cells, i + 1), cells[i]);
  }

  /** tuple_deserialize gives back the row that an image encodes. */
  lemma {:induction false} DecodeEncoded(s: Schema, cells: seq<Cell>, b: Bytes, i: nat)
    requires Built(s) && Conforms(s, cells) && Encodes(s, cells, b) && i <= |cells|
    ensures s.bitmapSize + s.fixedSize <= |b|
    ensures DecodeFrom(s, b, i, VarStart(s, cells, i)) == Ok(cells[i..])
    decreases |cells| - i
  {
    if i < |cells| {
      StepRead(s, cells, b, i);
      DecodeEncoded(s, cells, b, i + 1);
      assert cells[i..] == [cells[i]] + cells[i + 1..];
    }
  }

  /** So an image encodes one row only. */
  lemma EncodedOnce(s: Schema, a: seq<Cell>, c: seq<Cell>, b: Bytes)
    requires Built(s) && Conforms(s, a) && Conforms(s, c) && Encodes(s, a, b) && Encodes(s, c, b)
    ensures a == c
  {
    DecodeEncoded(s, a, b, 0);
    DecodeEncoded(s, c, b, 0);
  }

  function After(front: seq<Cell>, r: Result): Result {
    if r.Ok? then Ok(front + r.cells) else r
  }

  method ReadFixed(s: Schema, b: Bytes) returns (cells: seq<Cell>)
    requires Built(s) && s.bitmapSize + s.fixedSize <= |b|
    ensures |cells| == |s.columns|
    ensures forall j: nat {:trigger cells[j]} :: j < |cells| && !s.columns[j].kind.TVarchar? ==> cells[j] == FixedCell(s, b, j)
  {
    cells := seq(|s.columns|, _ => Nothing);
    for i := 0 to |s.columns|
      invariant |cells| == |s.columns|
      invariant forall j: nat {:trigger cells[j]} :: j < i && !s.columns[j].kind.TVarchar? ==> cells[j] == FixedCell(s, b, j)
    {
      if !s.columns[i].kind.TVarchar? {
        cells := cells[i := FixedCell(s, b, i)];
      }
    }
  }

  /** One string, with its length in front of it; `next` is where the one behind it starts. */
  method ReadString(s: Schema, b: Bytes, i: nat, offset: nat) returns (cell: Result, next: nat)
    requires Built(s) && s.bitmapSize + s.fixedSize <= |b| && i < |s.columns| && s.columns[i].kind.TVarchar?
    ensures cell.Ok? ==> |cell.cells| == 1 && DecodeFrom(s, b, i, offset) == Before(cell.cells[0], DecodeFrom(s, b, i + 1, next))
    ensures cell.Err? ==> DecodeFrom(s, b, i, offset) == cell
  {
    next := offset;
    if offset + 4 > |b| {
      return Err(DB_IO_ERROR), next;
    }
    var length := U32At(b, offset);
    next := offset + 4 + length;
    if NullBit(b, i) {
      return Ok([Nothing]), next;
    }
    if next > |b| {
      return Err(DB_IO_ERROR), next;
    }
    cell := Ok([Text(UpToZero(b[offset + 4..next]))]);
  }

  /** tuple_deserialize: first the fixed fields, then the strings. */
  method Deserialize(s: Schema, b: Bytes) returns (r: Result)
    requires Built(s) && s.bitmapSize + s.fixedSize <= |b|
    ensures r == Decode(s, b)
  {
    var cells := ReadFixed(s, b);
    var offset: nat := s.bitmapSize + s.fixedSize;
    for i := 0 to |s.columns|
      invariant |cells| == |s.columns|
      invariant forall j: nat {:trigger cells[j]} :: i <= j < |cells| && !s.columns[j].kind.TVarchar? ==> cells[j] == FixedCell(s, b, j)
      invariant After(cells[..i], DecodeFrom(s, b, i, offset)) == Decode(s, b)
    {
      ghost var front := cells[..i];
      if s.columns[i].kind.TVarchar? {
        var cell, next := ReadString(s, b, i, offset);
        if cell.Err? {
          return cell;
        }
        cells := cells[i := cell.cells[0]];
        offset := next;
      }
      assert cells[..i + 1] == front + [cells[i]];
      Moved(front, cells[i], DecodeFrom(s, b, i + 1, offset));
    }
    assert cells[..|s.columns|] == cells && cells + [] == cells;
    r := Ok(cells);
  }

  lemma Moved(front: seq<Cell>, cell: Cell, r: Result)
    ensures After(front + [cell], r) == After(front, Before(cell, r))
  {
    if r.Ok? {
      assert front + [cell] + r.cells == front + ([cell] + r.cells);
    }
  }

  /** Deserialising what was serialised gives the row back. */
  method StoreAndLoad(s: Schema, cells: seq<Cell>) returns (r: Result)
    requires Built(s) && Conforms(s, cells)
    ensures r == Ok(cells)
  {
    var size := SerializedSize(s, cells);
    var buf := new Byte[size];
    var written := Serialize(s, cells, buf);
    DecodeEncoded(s, cells, buf[..written], 0);
    r := Deserialize(s, buf[..written]);
  }
}
