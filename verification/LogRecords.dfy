/** The entries of the log: what a commit writes about an insertion or a statement, and what a replay reads in it. */
module LogRecords {
  import opened Versions
  import opened TableStorage
  import opened Serialization
  import UB = UndoBuffer

  const DROP_TABLE: byte := 1
  const INSERT_TUPLE: byte := 5
  const QUERY: byte := 6
  const WAL_FLUSH: byte := 100

  predicate TypeIsValid(kind: byte) {
    kind == WAL_FLUSH || DROP_TABLE <= kind <= QUERY
  }

  datatype Entry = Entry(kind: byte, data: seq<byte>)

  /** An entry that the writer can have written.  The format cannot hold an empty payload: reading one fails. */
  predicate Writable(e: Entry) {
    DROP_TABLE <= e.kind <= QUERY && 0 < |e.data| < 0x1_0000_0000
  }

  /** What the catalog knows about a table. */
  datatype TableEntry = TableEntry(schema: seq<byte>, name: seq<byte>, types: seq<nat>)

  /** The tables have names of their own. */
  predicate AreTables(tables: seq<TableEntry>) {
    forall i, j :: 0 <= i < j < |tables| ==> tables[i].schema != tables[j].schema || tables[i].name != tables[j].name
  }

  /** The number of the table with these names, or how many tables there are. */
  function TableNamed(tables: seq<TableEntry>, schema: seq<byte>, name: seq<byte>): (t: nat)
    ensures t <= |tables|
    ensures t < |tables| ==> tables[t].schema == schema && tables[t].name == name
    ensures t == |tables| ==> forall i :: 0 <= i < |tables| ==> tables[i].schema != schema || tables[i].name != name
  {
    if tables == [] || (tables[0].schema == schema && tables[0].name == name) then 0
    else 1 + TableNamed(tables[1..], schema, name)
  }

  /** The characters of a statement, which are bytes. */
  predicate IsText(q: string) {
    forall i :: 0 <= i < |q| ==> q[i] as int < 0x100
  }

  function TextBytes(q: string): (s: seq<byte>)
    requires IsText(q)
    ensures |s| == |q|
  {
    seq(|q|, i requires 0 <= i < |q| => q[i] as int)
  }

  function TextOf(s: seq<byte>): (q: string)
    ensures |q| == |s|
  {
    seq(|s|, i requires 0 <= i < |s| => s[i] as char)
  }

  lemma TextRoundTrip(q: string)
    requires IsText(q)
    ensures TextOf(TextBytes(q)) == q
  {
  }

  /** A record of a commit that the tables and the format have room for. */
  predicate IsRecord(tables: seq<TableEntry>, r: UB.LogRecord) {
    match r
    case Insert(t, rows) => t < |tables| && IsChunk(rows, tables[t].types) && |InsertBytes(tables[t], rows)| < 0x1_0000_0000
    case Query(q) => IsText(q) && |q| < 0x1_0000_0000 - 4
    case Flush => false
  }

  function InsertBytes(t: TableEntry, rows: seq<Tuple>): seq<byte>
    requires Wide(rows, |t.types|)
  {
    StringBytes(t.schema) + StringBytes(t.name) + ChunkBytes(rows, t.types)
  }

  function EntryOf(tables: seq<TableEntry>, r: UB.LogRecord): (e: Entry)
    requires IsRecord(tables, r)
  {
    if r.Insert? then Entry(INSERT_TUPLE, InsertBytes(tables[r.table], r.rows)) else Entry(QUERY, StringBytes(TextBytes(r.query)))
  }

  /** No entry without payload is ever written. */
  lemma EntriesAreWritable(tables: seq<TableEntry>, r: UB.LogRecord)
    requires IsRecord(tables, r)
    ensures Writable(EntryOf(tables, r))
  {
    if r.Insert? { assert |InsertBytes(tables[r.table], r.rows)| >= 4; }
  }

  /** What a replay reads in an entry; nothing where the code fails or throws.  Bytes behind the record are ignored. */
  function RecordIn(tables: seq<TableEntry>, e: Entry): Option<UB.LogRecord> {
    if e.kind == INSERT_TUPLE then InsertIn(tables, e.data)
    else if e.kind == QUERY then
      match ReadString(e.data)
      case Failed => None
      case Parsed(q, _) => Some(UB.Query(TextOf(q)))
    else None
  }

  function InsertIn(tables: seq<TableEntry>, data: seq<byte>): Option<UB.LogRecord> {
    match ReadString(data)
    case Failed => None
    case Parsed(schema, afterSchema) =>
      match ReadString(afterSchema)
      case Failed => None
      case Parsed(name, afterName) =>
        match ReadChunk(afterName)
        case Failed => None
        case Parsed(chunk, _) =>
          var t := TableNamed(tables, schema, name);
          if t < |tables| then Some(UB.Insert(t, chunk.rows)) else None
  }

  /** The tables themselves fit into the format. */
  predicate HaveNames(tables: seq<TableEntry>) {
    forall t :: 0 <= t < |tables| ==> |tables[t].schema| < 0x1_0000_0000 && |tables[t].name| < 0x1_0000_0000
  }

  lemma InsertReads(tables: seq<TableEntry>, data: seq<byte>, schema: Parsed<seq<byte>>, name: Parsed<seq<byte>>, chunk: Parsed<Chunk>)
    requires schema.Parsed? && name.Parsed? && chunk.Parsed?
    requires ReadString(data) == schema && ReadString(schema.rest) == name && ReadChunk(name.rest) == chunk
    ensures var t := TableNamed(tables, schema.value, name.value);
      InsertIn(tables, data) == if t < |tables| then Some(UB.Insert(t, chunk.value.rows)) else None
  {
  }

  lemma InsertRoundTrip(tables: seq<TableEntry>, t: nat, rows: seq<Tuple>)
    requires AreTables(tables) && HaveNames(tables) && t < |tables| && IsChunk(rows, tables[t].types)
    ensures InsertIn(tables, InsertBytes(tables[t], rows)) == Some(UB.Insert(t, rows))
  {
    var e := tables[t];
    var a, b, c := StringBytes(e.schema), StringBytes(e.name), ChunkBytes(rows, e.types);
    FromNothing(a, b, c);
    ReadsString(e.schema, b + c);
    ReadsString(e.name, c);
    ChunkRoundTrip(rows, e.types, []);
    InsertReads(tables, a + (b + c), Parsed(e.schema, b + c), Parsed(e.name, c), Parsed(Chunk(e.types, rows), []));
  }

  /** A replay reads what the commit wrote: the table by its name, the rows from their columns, the statement as it was. */
  lemma RecordRoundTrip(tables: seq<TableEntry>, r: UB.LogRecord)
    requires AreTables(tables) && HaveNames(tables) && IsRecord(tables, r)
    ensures RecordIn(tables, EntryOf(tables, r)) == Some(r)
  {
    match r
    case Insert(t, rows) => InsertRoundTrip(tables, t, rows);
    case Query(q) =>
      ReadsString(TextBytes(q), []);
      TextRoundTrip(q);
      assert StringBytes(TextBytes(q)) + [] == StringBytes(TextBytes(q));
  }

  /** Serializes an insertion. */
  method SerializeInsert(t: TableEntry, rows: seq<Tuple>) returns (data: seq<byte>)
    requires Wide(rows, |t.types|)
    ensures data == InsertBytes(t, rows)
  {
    var serializer := new Serializer();
    serializer.WriteString(t.schema);
    serializer.WriteString(t.name);
    serializer.WriteChunk(rows, t.types);
    data := serializer.blob;
    FromNothing(StringBytes(t.schema), StringBytes(t.name), ChunkBytes(rows, t.types));
  }

  lemma FromNothing(a: seq<byte>, b: seq<byte>, c: seq<byte>)
    ensures [] + a + b + c == a + b + c
    ensures a + b + c == a + (b + c) && c + [] == c
  {
  }

  /** Reads an insertion and looks up its table. */
  method DeserializeInsert(tables: seq<TableEntry>, data: seq<byte>) returns (r: Option<UB.LogRecord>)
    ensures r == InsertIn(tables, data)
  {
    var source := new Deserializer(data);
    var schema := source.ReadText();
    if schema.None? {
      return None;
    }
    var name := source.ReadText();
    if name.None? {
      return None;
    }
    var chunk := source.ReadDataChunk();
    if chunk.None? {
      return None;
    }
    var t := TableNamed(tables, schema.value, name.value);
    return if t < |tables| then Some(UB.Insert(t, chunk.value.rows)) else None;
  }
}
