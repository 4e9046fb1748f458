/** The bytes of the log, one by one. */
module LogBytes {
  import opened Versions
  import opened TableStorage
  import opened Serialization
  import opened LogRecords
  import opened WriteAheadLog
  import UB = UndoBuffer

  lemma NextByte(v: int, width: nat)
    ensures NumberBytes(v, width + 1) == [v % 256] + NumberBytes(v / 256, width)
  {
  }

  /** A number of 32 bits as its four bytes, the lowest one first. */
  lemma FourBytes(n: nat)
    ensures NumberBytes(n, 4) == [n % 256, n / 256 % 256, n / 65536 % 256, n / 16777216 % 256]
  {
    NextByte(n, 3);
    NextByte(n / 256, 2);
    NextByte(n / 256 / 256, 1);
    NextByte(n / 256 / 256 / 256, 0);
    Quotients(n);
  }

  lemma Quotients(n: nat)
    ensures n / 256 / 256 == n / 65536 && n / 256 / 256 / 256 == n / 16777216
  {
  }

  /** An entry: its kind, five for an insertion and six for a statement, then the size in four bytes, then the data. */
  lemma EntryBytes(tables: seq<TableEntry>, r: UB.LogRecord)
    requires IsRecord(tables, r)
    ensures var e := EntryOf(tables, r);
      var n := |e.data|;
      Encode(e) == [if r.Insert? then 5 else 6] + [n % 256, n / 256 % 256, n / 65536 % 256, n / 16777216 % 256] + e.data
  {
    var n := |EntryOf(tables, r).data|;
    SizeOpens(n);
    FourBytes(n);
  }

  /** The marker at the end of a commit. */
  lemma MarkerBytes()
    ensures FlushMarker() == [100, 0, 0, 0, 0]
  {
    SizeOpens(0);
    FourBytes(0);
  }

  /** A string: its length in four bytes, then its bytes. */
  lemma StringIs(s: seq<byte>)
    ensures var n := |s|; StringBytes(s) == [n % 256, n / 256 % 256, n / 65536 % 256, n / 16777216 % 256] + s
  {
    FourBytes(|s|);
  }

  /** The numbers of the types and their widths in bytes. */
  lemma TypeWidths(kind: nat)
    ensures TypeIdSize(kind) == (if kind in {2, 3} then 1 else if kind == 4 then 2 else if kind in {5, 8} then 4 else if kind == 6 then 8 else 0)
  {
  }

  /** A replay goes on behind an entry of the kinds 1 to 6, which it remembers until the next marker; any other kind but 100 ends
    it. */
  lemma KindsExactly<S>(db: S, stored: seq<Entry>, kind: byte, data: seq<byte>, rest: seq<byte>, replay: Replayer<S>)
    requires kind != 100 && 0 < |data| < 0x1_0000_0000
    ensures ReplayFrom(db, stored, Encode(Entry(kind, data)) + rest, replay)
      == if 1 <= kind <= 6 then ReplayFrom(db, stored + [Entry(kind, data)], rest, replay) else db
  {
    var bytes := Encode(Entry(kind, data)) + rest;
    SizeOpens(|data|);
    UnsignedOfSize(|data|);
    assert bytes[0] == kind && bytes[1..5] == NumberBytes(|data|, 4) && bytes[5..] == data + rest;
    assert (data + rest)[..|data|] == data && (data + rest)[|data|..] == rest;
  }

  /** A group of which an entry cannot be replayed ends the replay, and leaves nothing. */
  lemma FailedGroupEnds<S>(db: S, stored: seq<Entry>, e: Entry, rest: seq<byte>, replay: Replayer<S>)
    requires replay(db, e) == None
    ensures ReplayFrom(db, [e] + stored, [100, 0, 0, 0, 0] + rest, replay) == db
  {
    var bytes := [100, 0, 0, 0, 0] + rest;
    assert bytes[0] == 100;
    assert ApplyAll(db, [e] + stored, replay) == None by { assert ([e] + stored)[0] == e; }
  }

  /** An insertion into a table that is not there cannot be replayed. */
  lemma UnknownTableFails(tables: seq<TableEntry>, t: TableEntry, rows: seq<Tuple>)
    requires HaveNames([t]) && IsChunk(rows, t.types) && forall i :: 0 <= i < |tables| ==> tables[i].schema != t.schema || tables[i].name != t.name
    ensures RecordIn(tables, Entry(5, InsertBytes(t, rows))) == None
  {
    assert [t][0] == t;
    FromNothing(StringBytes(t.schema), StringBytes(t.name), ChunkBytes(rows, t.types));
    ReadsString(t.schema, StringBytes(t.name) + ChunkBytes(rows, t.types));
    ReadsString(t.name, ChunkBytes(rows, t.types));
    ChunkRoundTrip(rows, t.types, []);
    assert ChunkBytes(rows, t.types) + [] == ChunkBytes(rows, t.types);
  }

  lemma UnsignedOfSize(n: nat)
    requires n < 0x1_0000_0000
    ensures Unsigned(NumberBytes(n, 4)) == n
  {
    assert Power(4) == 256 * Power(3) == 65536 * Power(2) == 16777216 * Power(1) == 0x1_0000_0000 * Power(0);
    UnsignedRoundTrip(n, 4);
  }

  function RowData(v: byte, w: byte): (s: seq<byte>)
    ensures |s| == 18
  {
    [1, 0] + [1, 0, 0, 0, 0, 0, 0, 0] + [5, 0, 0, 0] + [v, w, 0, 0]
  }

  lemma InsertionData(t: TableEntry, v: byte, w: byte)
    requires w < 128 && t == TableEntry([97], [98], [5])
    ensures InsertBytes(t, [[v + 256 * w]]) == [1, 0, 0, 0, 97] + [1, 0, 0, 0, 98] + RowData(v, w)
    ensures |InsertBytes(t, [[v + 256 * w]])| == 28
  {
    RowBytes(v, w);
    StringIs([97]);
    StringIs([98]);
    assert [1, 0, 0, 0] + [97] == [1, 0, 0, 0, 97] && [1, 0, 0, 0] + [98] == [1, 0, 0, 0, 98];
  }

  lemma OneInsertionIsLog(tables: seq<TableEntry>, log: seq<UB.LogRecord>, v: byte, w: byte)
    requires w < 128 && tables == [TableEntry([97], [98], [5])] && log == [UB.Insert(0, [[v + 256 * w]]), UB.Flush]
    ensures IsLog(tables, log) && IsRecord(tables, log[0])
    ensures GroupOf(tables, log) == [EntryOf(tables, log[0])]
  {
    RowBytes(v, w);
    InsertionData(tables[0], v, w);
    assert log[..1] == [log[0]];
  }

  /** One insertion of one row of an integer column into the table a.b, with its marker, byte by byte. */
  lemma OneInsertion(tables: seq<TableEntry>, log: seq<UB.LogRecord>, v: byte, w: byte)
    requires w < 128 && tables == [TableEntry([97], [98], [5])] && log == [UB.Insert(0, [[v + 256 * w]]), UB.Flush]
    ensures IsLog(tables, log)
    ensures EncodeGroup(GroupOf(tables, log))
      == [5, 28, 0, 0, 0] + ([1, 0, 0, 0, 97] + [1, 0, 0, 0, 98] + RowData(v, w)) + [100, 0, 0, 0, 0]
  {
    OneInsertionIsLog(tables, log, v, w);
    InsertionEntry(tables, log[0], v, w);
    MarkerBytes();
    OneEntry(EntryOf(tables, log[0]));
  }

  lemma InsertionEntry(tables: seq<TableEntry>, r: UB.LogRecord, v: byte, w: byte)
    requires w < 128 && tables == [TableEntry([97], [98], [5])] && r == UB.Insert(0, [[v + 256 * w]]) && IsRecord(tables, r)
    ensures Encode(EntryOf(tables, r)) == [5, 28, 0, 0, 0] + ([1, 0, 0, 0, 97] + [1, 0, 0, 0, 98] + RowData(v, w))
  {
    InsertionData(tables[0], v, w);
    EntryOf28(EntryOf(tables, r), InsertBytes(tables[0], r.rows));
  }

  lemma EntryOf28(e: Entry, data: seq<byte>)
    requires e == Entry(5, data) && |data| == 28
    ensures Encode(e) == [5, 28, 0, 0, 0] + data
  {
    SizeOpens(28);
    FourBytes(28);
    assert [5] + [28, 0, 0, 0] == [5, 28, 0, 0, 0];
  }

  lemma OneEntry(e: Entry)
    ensures EncodeEntries([e]) == Encode(e)
  {
    assert EncodeEntries([e]) == Encode(e) + EncodeEntries([]);
  }

  lemma RowBytes(v: byte, w: byte)
    requires w < 128
    ensures IsChunk([[v + 256 * w]], [5])
    ensures ChunkBytes([[v + 256 * w]], [5]) == RowData(v, w)
  {
    var n, rows := v + 256 * w, [[v + 256 * w]];
    TypeWidths(5);
    assert FitsIn(n, 4) by { assert Power(3) == 256 * Power(2) == 65536 * Power(1) == 16777216 * Power(0); }
    assert NumberBytes(1, 2) == [1, 0] by { SmallNumber(1, 2); }
    assert NumberBytes(1, 8) == [1, 0, 0, 0, 0, 0, 0, 0] by { SmallNumber(1, 8); }
    FourBytes(5);
    FourBytes(n);
    assert NumberBytes(n, 4) == [v, w, 0, 0];
    assert TypeBytes([5]) == TypeBytes([]) + NumberBytes(5, 4);
    assert Column(rows, 1, 0) == [n];
    assert ColumnBytes([n], 4) == ColumnBytes([], 4) + NumberBytes(n, 4);
    assert ColumnsBytes(rows, [5], 1) == ColumnsBytes(rows, [5], 0) + ColumnBytes(Column(rows, 1, 0), 4);
  }

  lemma {:induction false} SmallNumber(v: byte, width: nat)
    requires width > 0
    ensures NumberBytes(v, width) == [v] + seq(width - 1, i => 0)
  {
    if width > 1 {
      SmallNumber(0, width - 1);
      assert v / 0x100 == 0;
    }
  }
}
