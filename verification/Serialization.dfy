/** Numbers, strings and chunks of rows as bytes: what is written is what is read. */
module Serialization {
  import opened Versions
  import opened TableStorage

  type byte = b: int | 0 <= b < 0x100

  // ----- numbers -----

  /** The lowest bytes of a number in two's complement, lowest first. */
  function NumberBytes(v: int, width: nat): (s: seq<byte>)
    ensures |s| == width
    decreases width
  {
    if width == 0 then [] else [v % 0x100] + NumberBytes(v / 0x100, width - 1)
  }

  /** The unsigned number that the bytes hold. */
  function Unsigned(s: seq<byte>): nat {
    if s == [] then 0 else s[0] + 0x100 * Unsigned(s[1..])
  }

  /** The signed number that the bytes hold: the highest byte decides the sign. */
  function Signed(s: seq<byte>): int
    requires s != []
  {
    if |s| == 1 then if s[0] < 0x80 then s[0] else s[0] - 0x100
    else s[0] + 0x100 * Signed(s[1..])
  }

  function Power(width: nat): (p: nat)
    ensures 0 < p
  {
    if width == 0 then 1 else 0x100 * Power(width - 1)
  }

  /** The number lies within the signed integers of the width. */
  predicate FitsIn(v: int, width: nat) {
    width > 0 && -0x80 * Power(width - 1) <= v < 0x80 * Power(width - 1)
  }

  lemma {:induction false} UnsignedRoundTrip(n: nat, width: nat)
    requires n < Power(width)
    ensures Unsigned(NumberBytes(n, width)) == n
  {
    if width > 0 {
      UnsignedRoundTrip(n / 0x100, width - 1);
      assert NumberBytes(n, width)[1..] == NumberBytes(n / 0x100, width - 1);
    }
  }

  lemma {:induction false} SignedRoundTrip(v: int, width: nat)
    requires FitsIn(v, width)
    ensures Signed(NumberBytes(v, width)) == v
    decreases width
  {
    assert NumberBytes(v, width)[1..] == NumberBytes(v / 0x100, width - 1);
    if width > 1 {
      assert FitsIn(v / 0x100, width - 1);
      SignedRoundTrip(v / 0x100, width - 1);
    }
  }

  /** The first difference between two byte strings decides, the way memcmp does; 0 when there is none. */
  function MemCmp(a: seq<byte>, b: seq<byte>): (r: int)
    requires |a| == |b|
    ensures r == 0 <==> a == b
  {
    if a == [] then 0
    else if a[0] != b[0] then a[0] - b[0]
    else
      assert a == [a[0]] + a[1..] && b == [b[0]] + b[1..];
      MemCmp(a[1..], b[1..])
  }

  // ----- types -----

  /** The first byte that differs decides. */
  lemma {:induction false} MemCmpIs(a: seq<byte>, b: seq<byte>, i: nat)
    requires |a| == |b| && i < |a| && a[..i] == b[..i]
    ensures a[i] < b[i] ==> MemCmp(a, b) < 0
    ensures a[i] > b[i] ==> MemCmp(a, b) > 0
    decreases i
  {
    if i > 0 {
      assert a[0] == a[..i][0] == b[..i][0] == b[0];
      assert a[1..][..i - 1] == a[..i][1..] == b[..i][1..] == b[1..][..i - 1];
      MemCmpIs(a[1..], b[1..], i - 1);
    }
  }

  const BOOLEAN: nat := 2
  const TINYINT: nat := 3
  const SMALLINT: nat := 4
  const INTEGER: nat := 5
  const BIGINT: nat := 6
  const DATE: nat := 8

  /** The size of a value, or 0 for the types that are not modelled. */
  function TypeIdSize(kind: nat): nat {
    if kind == BOOLEAN || kind == TINYINT then 1
    else if kind == SMALLINT then 2
    else if kind == INTEGER || kind == DATE then 4
    else if kind == BIGINT then 8
    else 0
  }

  predicate IsType(kind: nat) { TypeIdSize(kind) > 0 }

  predicate AreTypes(types: seq<nat>) {
    forall j :: 0 <= j < |types| ==> IsType(types[j])
  }

  predicate Wide(rows: seq<Tuple>, width: nat) {
    forall i :: 0 <= i < |rows| ==> |rows[i]| == width
  }

  predicate RowFits(row: Tuple, types: seq<nat>) {
    |row| == |types| && forall j :: 0 <= j < |types| ==> FitsIn(row[j], TypeIdSize(types[j]))
  }

  /** Rows that fill a chunk of these types. */
  predicate IsChunk(rows: seq<Tuple>, types: seq<nat>) {
    && |rows| <= STANDARD_VECTOR_SIZE && |types| < 0x1_0000_0000 && AreTypes(types)
    && Wide(rows, |types|) && forall i :: 0 <= i < |rows| ==> RowFits(rows[i], types)
  }

  // ----- writing -----

  function StringBytes(s: seq<byte>): seq<byte> {
    NumberBytes(|s|, 4) + s
  }

  function TypeBytes(types: seq<nat>): seq<byte> {
    if types == [] then [] else TypeBytes(types[..|types| - 1]) + NumberBytes(types[|types| - 1], 4)
  }

  /** The column's values, one after the other. */
  function ColumnBytes(column: seq<int>, width: nat): seq<byte> {
    if column == [] then [] else ColumnBytes(column[..|column| - 1], width) + NumberBytes(column[|column| - 1], width)
  }

  /** The values of the j-th column. */
  function Column(rows: seq<Tuple>, width: nat, j: nat): (column: seq<int>)
    requires Wide(rows, width) && j < width
    ensures |column| == |rows|
  {
    seq(|rows|, i requires 0 <= i < |rows| => rows[i][j])
  }

  /** The first n columns, one after the other. */
  function ColumnsBytes(rows: seq<Tuple>, types: seq<nat>, n: nat): seq<byte>
    requires n <= |types| && Wide(rows, |types|)
  {
    if n == 0 then [] else
    ColumnsBytes(rows, types, n - 1) + ColumnBytes(Column(rows, |types|, n - 1), TypeIdSize(types[n - 1]))
  }

  /** The number of rows, the number of columns and their types; then the values, column by column. */
  function ChunkBytes(rows: seq<Tuple>, types: seq<nat>): seq<byte>
    requires Wide(rows, |types|)
  {
    NumberBytes(|rows|, 2) + NumberBytes(|types|, 8) + TypeBytes(types) + ColumnsBytes(rows, types, |types|)
  }

  lemma TypesPush(head: seq<byte>, types: seq<nat>, j: nat)
    requires j < |types|
    ensures head + TypeBytes(types[..j + 1]) == head + TypeBytes(types[..j]) + NumberBytes(types[j], 4)
  {
    assert types[..j + 1][..j] == types[..j];
  }

  lemma ColumnPush(head: seq<byte>, column: seq<int>, width: nat, i: nat)
    requires i < |column|
    ensures head + ColumnBytes(column[..i + 1], width)
         == head + ColumnBytes(column[..i], width) + NumberBytes(column[i], width)
  {
    assert column[..i + 1][..i] == column[..i];
  }

  lemma ColumnsPush(head: seq<byte>, rows: seq<Tuple>, types: seq<nat>, j: nat)
    requires j < |types| && Wide(rows, |types|)
    ensures head + ColumnsBytes(rows, types, j + 1)
         == head + ColumnsBytes(rows, types, j) + ColumnBytes(Column(rows, |types|, j), TypeIdSize(types[j]))
  {
  }

  lemma JoinFour(head: seq<byte>, a: seq<byte>, b: seq<byte>, c: seq<byte>, d: seq<byte>)
    ensures head + a + b + c + d == head + (a + b + c + d)
  {
  }

  /** Collects the bytes of an entry. */
  class Serializer {
    var blob: seq<byte>

    constructor ()
      ensures blob == []
    {
      blob := [];
    }

    method WriteData(data: seq<byte>)
      modifies this
      ensures blob == old(blob) + data
    {
      blob := blob + data;
    }

    method WriteString(s: seq<byte>)
      modifies this
      ensures blob == old(blob) + StringBytes(s)
    {
      WriteData(NumberBytes(|s|, 4));
      WriteData(s);
    }

    method WriteTypes(types: seq<nat>)
      modifies this
      ensures blob == old(blob) + TypeBytes(types)
    {
      for j := 0 to |types|
        invariant blob == old(blob) + TypeBytes(types[..j])
      {
        TypesPush(old(blob), types, j);
        WriteData(NumberBytes(types[j], 4));
      }
      assert types[..|types|] == types;
    }

    method WriteColumn(rows: seq<Tuple>, width: nat, j: nat, size: nat)
      requires Wide(rows, width) && j < width
      modifies this
      ensures blob == old(blob) + ColumnBytes(Column(rows, width, j), size)
    {
      ghost var column := Column(rows, width, j);
      for i := 0 to |rows|
        invariant blob == old(blob) + ColumnBytes(column[..i], size)
      {
        ColumnPush(old(blob), column, size, i);
        WriteData(NumberBytes(rows[i][j], size));
      }
      assert column[..|rows|] == column;
    }

    method WriteColumns(rows: seq<Tuple>, types: seq<nat>)
      requires Wide(rows, |types|)
      modifies this
      ensures blob == old(blob) + ColumnsBytes(rows, types, |types|)
    {
      for j := 0 to |types|
        invariant blob == old(blob) + ColumnsBytes(rows, types, j)
      {
        ColumnsPush(old(blob), rows, types, j);
        WriteColumn(rows, |types|, j, TypeIdSize(types[j]));
      }
    }

    /** Writes a chunk of rows. */
    method WriteChunk(rows: seq<Tuple>, types: seq<nat>)
      requires Wide(rows, |types|)
      modifies this
      ensures blob == old(blob) + ChunkBytes(rows, types)
    {
      WriteData(NumberBytes(|rows|, 2));
      WriteData(NumberBytes(|types|, 8));
      WriteTypes(types);
      WriteColumns(rows, types);
      JoinFour(old(blob), NumberBytes(|rows|, 2), NumberBytes(|types|, 8), TypeBytes(types), ColumnsBytes(rows, types, |types|));
    }
  }

  // ----- reading -----

  /** A value and the bytes behind it. */
  datatype Parsed<+T> = Failed | Parsed(value: T, rest: seq<byte>)

  function ReadUnsigned(s: seq<byte>, width: nat): Parsed<nat> {
    if |s| < width then Failed else Parsed(Unsigned(s[..width]), s[width..])
  }

  function ReadString(s: seq<byte>): Parsed<seq<byte>> {
    match ReadUnsigned(s, 4)
    case Failed => Failed
    case Parsed(size, rest) => if |rest| < size then Failed else Parsed(rest[..size], rest[size..])
  }

  /** Reads n types behind those read already. */
  function ReadTypes(s: seq<byte>, types: seq<nat>, n: nat): Parsed<seq<nat>>
    decreases n
  {
    if n == 0 then Parsed(types, s) else
    match ReadUnsigned(s, 4)
    case Failed => Failed
    case Parsed(kind, rest) => ReadTypes(rest, types + [kind], n - 1)
  }

  /** Reads n values behind those read already. */
  function ReadColumn(s: seq<byte>, width: nat, column: seq<int>, n: nat): Parsed<seq<int>>
    requires width > 0
    decreases n
  {
    if n == 0 then Parsed(column, s)
    else if |s| < width then Failed
    else ReadColumn(s[width..], width, column + [Signed(s[..width])], n - 1)
  }

  lemma {:induction false} ColumnLength(s: seq<byte>, width: nat, column: seq<int>, n: nat)
    requires width > 0
    ensures ReadColumn(s, width, column, n).Failed? <==> |s| < width * n
    ensures ReadColumn(s, width, column, n).Parsed? ==>
      && |ReadColumn(s, width, column, n).value| == |column| + n
      && ReadColumn(s, width, column, n).rest == s[width * n..]
    decreases n
  {
    if n > 0 {
      assert width * n == width + width * (n - 1);
      if width <= |s| {
        ColumnLength(s[width..], width, column + [Signed(s[..width])], n - 1);
        assert width * n <= |s| ==> s[width..][width * (n - 1)..] == s[width * n..];
      }
    }
  }

  /** Reads a column for each of the types, behind the columns read already. */
  function ReadColumns(s: seq<byte>, types: seq<nat>, columns: seq<seq<int>>, count: nat): (p: Parsed<seq<seq<int>>>)
    requires |columns| <= |types| && AreTypes(types)
    requires forall j :: 0 <= j < |columns| ==> |columns[j]| == count
    ensures p.Parsed? ==> |p.value| == |types| && forall j :: 0 <= j < |types| ==> |p.value[j]| == count
    decreases |types| - |columns|
  {
    if |columns| == |types| then Parsed(columns, s) else
    var width := TypeIdSize(types[|columns|]);
    ColumnLength(s, width, [], count);
    match ReadColumn(s, width, [], count)
    case Failed => Failed
    case Parsed(column, rest) => ReadColumns(rest, types, columns + [column], count)
  }

  /** The rows across columns of the same length. */
  function RowsAcross(columns: seq<seq<int>>, count: nat): (rows: seq<Tuple>)
    requires forall j :: 0 <= j < |columns| ==> |columns[j]| == count
    ensures |rows| == count
    ensures forall i :: 0 <= i < count ==>
      |rows[i]| == |columns| && forall j :: 0 <= j < |columns| ==> rows[i][j] == columns[j][i]
  {
    seq(count, i requires 0 <= i < count => seq(|columns|, j requires 0 <= j < |columns| => columns[j][i]))
  }

  datatype Chunk = Chunk(types: seq<nat>, rows: seq<Tuple>)

  /** Reading fails where bytes are missing, and also where the code throws: a type without a size, or too many rows for a
      vector. */
  function ReadChunk(s: seq<byte>): Parsed<Chunk> {
    match ReadUnsigned(s, 2)
    case Failed => Failed
    case Parsed(count, afterCount) =>
      match ReadUnsigned(afterCount, 8)
      case Failed => Failed
      case Parsed(width, afterWidth) =>
        match ReadTypes(afterWidth, [], width)
        case Failed => Failed
        case Parsed(types, afterTypes) => ReadRows(afterTypes, types, count)
  }

  function ReadRows(s: seq<byte>, types: seq<nat>, count: nat): Parsed<Chunk> {
    if !AreTypes(types) || (types != [] && STANDARD_VECTOR_SIZE < count) then Failed else
    match ReadColumns(s, types, [], count)
    case Failed => Failed
    case Parsed(columns, rest) => Parsed(Chunk(types, RowsAcross(columns, count)), rest)
  }

  /** A reader has returned what the bytes hold, and stands behind it unless it has failed. */
  predicate Took<T(==)>(p: Parsed<T>, r: Option<T>, rest: seq<byte>) {
    match p
    case Failed => r == None
    case Parsed(value, tail) => r == Some(value) && rest == tail
  }

  /** Takes values off the front of the bytes of an entry. */
  class Deserializer {
    const data: seq<byte>
    var position: nat

    ghost predicate Valid()
      reads this
    {
      position <= |data|
    }

    ghost function Rest(): seq<byte>
      reads this
      requires Valid()
    {
      data[position..]
    }

    constructor (bytes: seq<byte>)
      ensures Valid() && Rest() == bytes
    {
      data, position := bytes, 0;
    }

    method ReadNumber(width: nat) returns (r: Option<nat>)
      requires Valid()
      modifies this
      ensures Valid() && Took(ReadUnsigned(old(Rest()), width), r, Rest())
    {
      if |data| < position + width {
        return None;
      }
      assert data[position..position + width] == Rest()[..width];
      r := Some(Unsigned(data[position..position + width]));
      position := position + width;
    }

    method ReadText() returns (r: Option<seq<byte>>)
      requires Valid()
      modifies this
      ensures Valid() && Took(ReadString(old(Rest())), r, Rest())
    {
      var size := ReadNumber(4);
      if size.None? || |data| < position + size.value {
        return None;
      }
      assert data[position..position + size.value] == Rest()[..size.value];
      r := Some(data[position..position + size.value]);
      position := position + size.value;
    }

    method ReadTypeIds(n: nat) returns (r: Option<seq<nat>>)
      requires Valid()
      modifies this
      ensures Valid() && Took(ReadTypes(old(Rest()), [], n), r, Rest())
    {
      var types: seq<nat> := [];
      for j := 0 to n
        invariant Valid() && ReadTypes(old(Rest()), [], n) == ReadTypes(Rest(), types, n - j)
      {
        var kind := ReadNumber(4);
        if kind.None? {
          return None;
        }
        types := types + [kind.value];
      }
      return Some(types);
    }

    /** Takes the bytes of the whole column first, as the code does, and then value by value. */
    method ReadValues(width: nat, count: nat) returns (r: Option<seq<int>>)
      requires Valid() && width > 0
      modifies this
      ensures Valid() && Took(ReadColumn(old(Rest()), width, [], count), r, Rest())
    {
      ColumnLength(Rest(), width, [], count);
      if |data| < position + width * count {
        return None;
      }
      var column: seq<int> := [];
      for i := 0 to count
        invariant Valid() && |Rest()| >= width * (count - i)
        invariant ReadColumn(old(Rest()), width, [], count) == ReadColumn(Rest(), width, column, count - i)
      {
        ValueFirst(Rest(), width, column, count - i);
        assert data[position..position + width] == Rest()[..width];
        column := column + [Signed(data[position..position + width])];
        position := position + width;
      }
      return Some(column);
    }

    method ReadAllColumns(types: seq<nat>, count: nat) returns (r: Option<seq<seq<int>>>)
      requires Valid() && AreTypes(types)
      modifies this
      ensures Valid() && Took(ReadColumns(old(Rest()), types, [], count), r, Rest())
    {
      var columns: seq<seq<int>> := [];
      for j := 0 to |types|
        invariant Valid() && |columns| == j && forall i :: 0 <= i < j ==> |columns[i]| == count
        invariant ReadColumns(old(Rest()), types, [], count) == ReadColumns(Rest(), types, columns, count)
      {
        assert IsType(types[j]);
        ColumnLength(Rest(), TypeIdSize(types[j]), [], count);
        var column := ReadValues(TypeIdSize(types[j]), count);
        if column.None? {
          return None;
        }
        columns := columns + [column.value];
      }
      return Some(columns);
    }

    /** Reads a chunk of rows. */
    method ReadDataChunk() returns (r: Option<Chunk>)
      requires Valid()
      modifies this
      ensures Valid() && Took(ReadChunk(old(Rest())), r, Rest())
    {
      var count := ReadNumber(2);
      if count.None? {
        return None;
      }
      var width := ReadNumber(8);
      if width.None? {
        return None;
      }
      var types := ReadTypeIds(width.value);
      if types.None? || !AreTypes(types.value) || (types.value != [] && STANDARD_VECTOR_SIZE < count.value) {
        return None;
      }
      var columns := ReadAllColumns(types.value, count.value);
      if columns.None? {
        return None;
      }
      return Some(Chunk(types.value, RowsAcross(columns.value, count.value)));
    }
  }

  lemma ValueFirst(s: seq<byte>, width: nat, column: seq<int>, n: nat)
    requires width > 0 && 0 < n && width * n <= |s|
    ensures width <= |s| && width * (n - 1) == width * n - width
    ensures ReadColumn(s, width, column, n) == ReadColumn(s[width..], width, column + [Signed(s[..width])], n - 1)
  {
    assert width * n == width + width * (n - 1);
  }

  // ----- what is written is what is read -----

  lemma ReadsNumber(n: nat, width: nat, tail: seq<byte>)
    requires n < Power(width)
    ensures ReadUnsigned(NumberBytes(n, width) + tail, width) == Parsed(n, tail)
  {
    UnsignedRoundTrip(n, width);
    var s := NumberBytes(n, width) + tail;
    assert s[..width] == NumberBytes(n, width) && s[width..] == tail;
  }

  lemma Widths()
    ensures Power(2) == 0x1_0000 && Power(4) == 0x1_0000_0000 && Power(8) == 0x1_0000_0000_0000_0000
  {
    assert Power(2) == 0x100 * Power(1) && Power(1) == 0x100 * Power(0);
    assert Power(4) == 0x100 * Power(3) && Power(3) == 0x100 * Power(2);
    assert Power(6) == 0x100 * Power(5) && Power(5) == 0x100 * Power(4);
    assert Power(8) == 0x100 * Power(7) && Power(7) == 0x100 * Power(6);
  }

  lemma ReadsString(t: seq<byte>, tail: seq<byte>)
    requires |t| < 0x1_0000_0000
    ensures ReadString(StringBytes(t) + tail) == Parsed(t, tail)
  {
    Widths();
    assert StringBytes(t) + tail == NumberBytes(|t|, 4) + (t + tail);
    ReadsNumber(|t|, 4, t + tail);
    assert (t + tail)[..|t|] == t && (t + tail)[|t|..] == tail;
  }

  lemma {:induction false} ReadsTypes(types: seq<nat>, k: nat, tail: seq<byte>)
    requires k <= |types| && AreTypes(types)
    ensures ReadTypes(TypeBytes(types[..k]) + tail, [], |types|) == ReadTypes(tail, types[..k], |types| - k)
  {
    if k == 0 {
      assert TypeBytes(types[..0]) + tail == tail;
    } else {
      var kind, more := types[k - 1], NumberBytes(types[k - 1], 4) + tail;
      assert types[..k][..k - 1] == types[..k - 1];
      assert TypeBytes(types[..k]) + tail == TypeBytes(types[..k - 1]) + more;
      ReadsTypes(types, k - 1, more);
      Widths();
      assert IsType(kind);
      ReadsNumber(kind, 4, tail);
      assert types[..k - 1] + [kind] == types[..k];
    }
  }

  lemma {:induction false} ReadsColumn(column: seq<int>, width: nat, k: nat, tail: seq<byte>)
    requires width > 0 && k <= |column| && forall i :: 0 <= i < |column| ==> FitsIn(column[i], width)
    ensures ReadColumn(ColumnBytes(column[..k], width) + tail, width, [], |column|)
         == ReadColumn(tail, width, column[..k], |column| - k)
  {
    if k == 0 {
      assert ColumnBytes(column[..0], width) + tail == tail;
    } else {
      var v, more := column[k - 1], NumberBytes(column[k - 1], width) + tail;
      assert column[..k][..k - 1] == column[..k - 1];
      assert ColumnBytes(column[..k], width) + tail == ColumnBytes(column[..k - 1], width) + more;
      ReadsColumn(column, width, k - 1, more);
      SignedRoundTrip(v, width);
      assert more[..width] == NumberBytes(v, width) && more[width..] == tail;
      assert column[..k - 1] + [v] == column[..k];
    }
  }

  /** The columns of the rows. */
  function Columns(rows: seq<Tuple>, width: nat, n: nat): (columns: seq<seq<int>>)
    requires Wide(rows, width) && n <= width
    ensures |columns| == n
    ensures forall j :: 0 <= j < n ==> columns[j] == Column(rows, width, j)
  {
    seq(n, j requires 0 <= j < n => Column(rows, width, j))
  }

  lemma ReadsNextColumn(rows: seq<Tuple>, types: seq<nat>, k: nat, tail: seq<byte>)
    requires k < |types| && IsChunk(rows, types)
    ensures ReadColumns(ColumnBytes(Column(rows, |types|, k), TypeIdSize(types[k])) + tail, types, Columns(rows, |types|, k), |rows|)
         == ReadColumns(tail, types, Columns(rows, |types|, k + 1), |rows|)
  {
    var column, width := Column(rows, |types|, k), TypeIdSize(types[k]);
    forall i | 0 <= i < |rows| ensures FitsIn(column[i], width) {
      assert RowFits(rows[i], types);
    }
    assert IsType(types[k]);
    ReadsColumn(column, width, |column|, tail);
    assert column[..|column|] == column;
    assert Columns(rows, |types|, k) + [column] == Columns(rows, |types|, k + 1);
  }

  lemma ColumnsSplit(rows: seq<Tuple>, types: seq<nat>, k: nat, tail: seq<byte>)
    requires k < |types| && Wide(rows, |types|)
    ensures ColumnsBytes(rows, types, k + 1) + tail
         == ColumnsBytes(rows, types, k) + (ColumnBytes(Column(rows, |types|, k), TypeIdSize(types[k])) + tail)
  {
    ColumnsPush([], rows, types, k);
  }

  lemma {:induction false} ReadsColumns(rows: seq<Tuple>, types: seq<nat>, k: nat, tail: seq<byte>, p: Parsed<seq<seq<int>>>)
    requires k <= |types| && IsChunk(rows, types) && p == ReadColumns(tail, types, Columns(rows, |types|, k), |rows|)
    ensures ReadColumns(ColumnsBytes(rows, types, k) + tail, types, [], |rows|) == p
  {
    if k == 0 {
      assert ColumnsBytes(rows, types, 0) + tail == tail && Columns(rows, |types|, 0) == [];
    } else {
      var i := k - 1;
      ReadsNextColumn(rows, types, i, tail);
      ReadsColumns(rows, types, i, ColumnBytes(Column(rows, |types|, i), TypeIdSize(types[i])) + tail, p);
      ColumnsSplit(rows, types, i, tail);
    }
  }

  /** A chunk of rows comes back from its bytes, row by row, though it is written column by column. */
  lemma ChunkRoundTrip(rows: seq<Tuple>, types: seq<nat>, tail: seq<byte>)
    requires IsChunk(rows, types)
    ensures ReadChunk(ChunkBytes(rows, types) + tail) == Parsed(Chunk(types, rows), tail)
  {
    var columnsAnd := ColumnsBytes(rows, types, |types|) + tail;
    var typesAnd := TypeBytes(types) + columnsAnd;
    var widthAnd := NumberBytes(|types|, 8) + typesAnd;
    assert ChunkBytes(rows, types) + tail == NumberBytes(|rows|, 2) + widthAnd;
    Widths();
    ReadsNumber(|rows|, 2, widthAnd);
    ReadsNumber(|types|, 8, typesAnd);
    ReadsTypes(types, |types|, columnsAnd);
    assert types[..|types|] == types;
    RowsRoundTrip(rows, types, tail);
  }

  lemma RowsRoundTrip(rows: seq<Tuple>, types: seq<nat>, tail: seq<byte>)
    requires IsChunk(rows, types)
    ensures ReadRows(ColumnsBytes(rows, types, |types|) + tail, types, |rows|) == Parsed(Chunk(types, rows), tail)
  {
    var columns := Columns(rows, |types|, |types|);
    assert ReadColumns(tail, types, columns, |rows|) == Parsed(columns, tail);
    ReadsColumns(rows, types, |types|, tail, Parsed(columns, tail));
    AcrossColumns(rows, |types|);
  }

  lemma AcrossColumns(rows: seq<Tuple>, width: nat)
    requires Wide(rows, width)
    ensures RowsAcross(Columns(rows, width, width), |rows|) == rows
  {
    var columns := Columns(rows, width, width);
    var across := RowsAcross(columns, |rows|);
    forall i | 0 <= i < |rows| ensures across[i] == rows[i] {
      assert |rows[i]| == width;
      assert forall j :: 0 <= j < width ==> across[i][j] == columns[j][i] == Column(rows, width, j)[i] == rows[i][j];
    }
  }
}
