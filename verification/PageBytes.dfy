/** Fields in a page buffer (src/storage/page.h): unaligned little-endian integers copied in and out. */
module PageBytes {

  type Byte = x: int | 0 <= x < 256
  type Bytes = seq<Byte>

  const PAGE_SIZE: int := 4096

  ghost predicate SameAt(p: Bytes, q: Bytes, i: nat)
    requires i < |p| == |q|
  {
    p[i] == q[i]
  }

  /** The two strings of bytes are alike from `lo` up to `hi`. */
  ghost predicate Agree(p: Bytes, q: Bytes, lo: int, hi: int) {
    && |p| == |q|
    && forall i {:trigger SameAt(p, q, i)} :: 0 <= i < |p| && lo <= i < hi ==> SameAt(p, q, i)
  }

  /** Alike except from `lo` up to `hi`. */
  ghost predicate OnlyChanges(p: Bytes, q: Bytes, lo: int, hi: int) {
    Agree(p, q, 0, lo) && Agree(p, q, hi, |p|)
  }

  function U16At(p: Bytes, at: nat): (v: nat)
    requires at + 2 <= |p|
    ensures v < 0x1_0000
  {
    p[at] as int + 0x100 * (p[at + 1] as int)
  }

  function U32At(p: Bytes, at: nat): (v: nat)
    requires at + 4 <= |p|
    ensures v < 0x1_0000_0000
  {
    U16At(p, at) + 0x1_0000 * U16At(p, at + 2)
  }

  /** Two's complement. */
  function I32At(p: Bytes, at: nat): (v: int)
    requires at + 4 <= |p|
    ensures -0x8000_0000 <= v < 0x8000_0000
  {
    if U32At(p, at) < 0x8000_0000 then U32At(p, at) else U32At(p, at) - 0x1_0000_0000
  }

  function Unsigned32(v: int): (u: nat)
    requires -0x8000_0000 <= v < 0x8000_0000
    ensures u < 0x1_0000_0000
  {
    if v < 0 then v + 0x1_0000_0000 else v
  }

  /** A field or tuple whose bytes are alike has the same value. */
  lemma SameU16(p: Bytes, q: Bytes, at: nat)
    requires at + 2 <= |p| && Agree(p, q, at, at + 2)
    ensures U16At(q, at) == U16At(p, at)
  {
    assert SameAt(p, q, at) && SameAt(p, q, at + 1);
  }

  lemma SameU32(p: Bytes, q: Bytes, at: nat)
    requires at + 4 <= |p| && Agree(p, q, at, at + 4)
    ensures U32At(q, at) == U32At(p, at) && I32At(q, at) == I32At(p, at)
  {
    SameU16(p, q, at);
    SameU16(p, q, at + 2);
  }

  lemma SameSlice(p: Bytes, q: Bytes, lo: nat, hi: nat)
    requires lo <= hi <= |p| && Agree(p, q, lo, hi)
    ensures q[lo..hi] == p[lo..hi]
  {
    forall i | lo <= i < hi ensures p[i] == q[i] {
      assert SameAt(p, q, i);
    }
  }

  lemma AgreeTrans(p: Bytes, q: Bytes, r: Bytes, lo: int, hi: int)
    requires Agree(p, q, lo, hi) && Agree(q, r, lo, hi)
    ensures Agree(p, r, lo, hi)
  {
    forall i | 0 <= i < |p| && lo <= i < hi ensures SameAt(p, r, i) {
      assert SameAt(p, q, i) && SameAt(q, r, i);
    }
  }

  function ReadU16(a: array<Byte>, at: nat): (v: nat)
    requires at + 2 <= a.Length
    reads a
    ensures v == U16At(a[..], at)
  {
    a[at] as int + 0x100 * (a[at + 1] as int)
  }

  function ReadU32(a: array<Byte>, at: nat): (v: nat)
    requires at + 4 <= a.Length
    reads a
    ensures v == U32At(a[..], at)
  {
    ReadU16(a, at) + 0x1_0000 * ReadU16(a, at + 2)
  }

  function ReadI32(a: array<Byte>, at: nat): (v: int)
    requires at + 4 <= a.Length
    reads a
    ensures v == I32At(a[..], at)
  {
    if ReadU32(a, at) < 0x8000_0000 then ReadU32(a, at) else ReadU32(a, at) - 0x1_0000_0000
  }

  method StoreU16(a: array<Byte>, at: nat, v: nat)
    requires at + 2 <= a.Length && v < 0x1_0000
    modifies a
    ensures OnlyChanges(old(a[..]), a[..], at, at + 2) && U16At(a[..], at) == v
  {
    a[at], a[at + 1] := v % 0x100, v / 0x100;
  }

  method StoreU32(a: array<Byte>, at: nat, v: nat)
    requires at + 4 <= a.Length && v < 0x1_0000_0000
    modifies a
    ensures OnlyChanges(old(a[..]), a[..], at, at + 4) && U32At(a[..], at) == v
  {
    StoreU16(a, at, v % 0x1_0000);
    ghost var low := a[..];
    StoreU16(a, at + 2, v / 0x1_0000);
    SameU16(low, a[..], at);
    AgreeTrans(old(a[..]), low, a[..], 0, at);
    AgreeTrans(old(a[..]), low, a[..], at + 4, a.Length);
  }

  method StoreI32(a: array<Byte>, at: nat, v: int)
    requires at + 4 <= a.Length && -0x8000_0000 <= v < 0x8000_0000
    modifies a
    ensures OnlyChanges(old(a[..]), a[..], at, at + 4) && I32At(a[..], at) == v
  {
    StoreU32(a, at, Unsigned32(v));
  }

  /** memcpy of `data` to offset `at`. */
  method Copy(a: array<Byte>, at: nat, data: Bytes)
    requires at + |data| <= a.Length
    modifies a
    ensures OnlyChanges(old(a[..]), a[..], at, at + |data|) && a[at..at + |data|] == data
  {
    for i := 0 to |data|
      invariant forall j {:trigger a[j]} :: 0 <= j < a.Length ==>
                  a[j] == if at <= j < at + i then data[j - at] else old(a[j])
    {
      a[at + i] := data[i];
    }
  }
}
