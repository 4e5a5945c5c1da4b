/** Where the columns of a row go (src/storage/schema.c). */
module SchemaLayout {

  datatype ColumnType = TInteger | TFloat | TBoolean | TVarchar

  /** `fixedOffset` and `varIndex` are computed by schema_build. */
  datatype Column = Column(kind: ColumnType, maxLength: nat, fixedOffset: nat, varIndex: int)

  datatype Schema = Schema(columns: seq<Column>, fixedSize: nat, varCols: nat, bitmapSize: nat)

  /** schema_column_fixed_size. */
  function FixedWidth(kind: ColumnType): nat {
    match kind
    case TInteger => 8
    case TFloat => 8
    case TBoolean => 1
    case TVarchar => 0
  }

  function FixedBefore(columns: seq<Column>, n: nat): nat
    requires n <= |columns|
  {
    if n == 0 then 0 else FixedBefore(columns, n - 1) + FixedWidth(columns[n - 1].kind)
  }

  function VarsBefore(columns: seq<Column>, n: nat): nat
    requires n <= |columns|
  {
    if n == 0 then 0 else VarsBefore(columns, n - 1) + (if columns[n - 1].kind.TVarchar? then 1 else 0)
  }

  ghost predicate SameKinds(a: seq<Column>, b: seq<Column>) {
    |a| == |b| && forall i {:trigger a[i]} {:trigger b[i]} :: 0 <= i < |a| ==> a[i].kind == b[i].kind && a[i].maxLength == b[i].maxLength
  }

  lemma {:induction false} SameSums(a: seq<Column>, b: seq<Column>, n: nat)
    requires SameKinds(a, b) && n <= |a|
    ensures FixedBefore(a, n) == FixedBefore(b, n) && VarsBefore(a, n) == VarsBefore(b, n)
    decreases n
  {
    if n > 0 {
      SameSums(a, b, n - 1);
    }
  }

  ghost predicate ColumnBuilt(s: Schema, i: nat)
    requires i < |s.columns|
  {
    if s.columns[i].kind.TVarchar? then s.columns[i].fixedOffset == 0 && s.columns[i].varIndex == VarsBefore(s.columns, i)
    else s.columns[i].fixedOffset == FixedBefore(s.columns, i) && s.columns[i].varIndex == -1
  }

  /** The fields of fixed width lie one behind the other, and there is a bit for each column. */
  ghost predicate Built(s: Schema) {
    && s.columns != []
    && (forall i {:trigger ColumnBuilt(s, i)} :: 0 <= i < |s.columns| ==> ColumnBuilt(s, i))
    && s.fixedSize == FixedBefore(s.columns, |s.columns|) && s.varCols == VarsBefore(s.columns, |s.columns|)
    && 8 * s.bitmapSize >= |s.columns| > 8 * (s.bitmapSize - 1)
  }

  lemma {:induction false} FixedGrows(columns: seq<Column>, i: nat, j: nat)
    requires i < j <= |columns|
    ensures FixedBefore(columns, i) + FixedWidth(columns[i].kind) <= FixedBefore(columns, j)
    decreases j
  {
    if i < j - 1 {
      FixedGrows(columns, i, j - 1);
    }
  }

  /** So two fields never overlap, whatever the order of the columns, and all lie within the fixed area. */
  lemma FieldsApart(s: Schema, i: nat, j: nat)
    requires Built(s) && i < j < |s.columns| && !s.columns[i].kind.TVarchar? && !s.columns[j].kind.TVarchar?
    ensures s.columns[i].fixedOffset + FixedWidth(s.columns[i].kind) <= s.columns[j].fixedOffset
    ensures s.columns[j].fixedOffset + FixedWidth(s.columns[j].kind) <= s.fixedSize
  {
    assert ColumnBuilt(s, i) && ColumnBuilt(s, j);
    FixedGrows(s.columns, i, j);
    FixedGrows(s.columns, j, |s.columns|);
  }

  ghost predicate PlacedAt(definitions: seq<Column>, i: nat, c: Column)
    requires i < |definitions|
  {
    && c.kind == definitions[i].kind && c.maxLength == definitions[i].maxLength
    && if c.kind.TVarchar? then c.fixedOffset == 0 && c.varIndex == VarsBefore(definitions, i)
       else c.fixedOffset == FixedBefore(definitions, i) && c.varIndex == -1
  }

  lemma PlacedBuilt(definitions: seq<Column>, s: Schema)
    requires definitions != [] && |s.columns| == |definitions|
    requires forall i {:trigger s.columns[i]} :: 0 <= i < |definitions| ==> PlacedAt(definitions, i, s.columns[i])
    requires s.fixedSize == FixedBefore(definitions, |definitions|) && s.varCols == VarsBefore(definitions, |definitions|)
    requires s.bitmapSize == (|definitions| + 7) / 8
    ensures Built(s) && SameKinds(definitions, s.columns)
  {
    assert SameKinds(definitions, s.columns);
    SameSums(definitions, s.columns, |definitions|);
    forall i | 0 <= i < |definitions| ensures ColumnBuilt(s, i) {
      SameSums(definitions, s.columns, i);
    }
  }

  /** schema_build. */
  method Build(definitions: seq<Column>) returns (s: Schema)
    requires definitions != []
    ensures Built(s) && SameKinds(definitions, s.columns)
  {
    var columns := definitions;
    var fixedOffset, varCount := 0, 0;
    for i := 0 to |definitions|
      invariant |columns| == |definitions|
      invariant fixedOffset == FixedBefore(definitions, i) && varCount == VarsBefore(definitions, i)
      invariant forall j {:trigger columns[j]} :: 0 <= j < i ==> PlacedAt(definitions, j, columns[j])
      invariant forall j {:trigger columns[j]} :: i <= j < |columns| ==> columns[j] == definitions[j]
    {
      var c := columns[i];
      if c.kind.TVarchar? {
        columns := columns[i := c.(fixedOffset := 0, varIndex := varCount)];
        varCount := varCount + 1;
      } else {
        columns := columns[i := c.(fixedOffset := fixedOffset, varIndex := -1)];
        fixedOffset := fixedOffset + FixedWidth(c.kind);
      }
    }
    s := Schema(columns, fixedOffset, varCount, (|columns| + 7) / 8);
    PlacedBuilt(definitions, s);
  }

  function VarMax(columns: seq<Column>, n: nat): nat
    requires n <= |columns|
  {
    if n == 0 then 0
    else VarMax(columns, n - 1) + (if columns[n - 1].kind.TVarchar? then columns[n - 1].maxLength + 4 else 0)
  }

  /** schema_max_tuple_size. */
  method MaxTupleSize(s: Schema) returns (size: nat)
    ensures size == s.bitmapSize + s.fixedSize + VarMax(s.columns, |s.columns|)
  {
    size := s.bitmapSize + s.fixedSize;
    for i := 0 to |s.columns|
      invariant size == s.bitmapSize + s.fixedSize + VarMax(s.columns, i)
    {
      if s.columns[i].kind.TVarchar? {
        size := size + s.columns[i].maxLength + 4;
      }
    }
  }
}
