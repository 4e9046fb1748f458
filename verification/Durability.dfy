/** A database with a log: what its commits write is what a replay after a crash finds. */
module Durability {
  import opened Versions
  import opened Mvcc
  import opened TableStorage
  import opened Engine
  import opened Serialization
  import opened LogRecords
  import opened WriteAheadLog
  import DB = Database
  import UB = UndoBuffer

  /** The bytes of a full vector of rows of the table fit into the size of an entry. */
  predicate TableFits(t: TableEntry) {
    AreTypes(t.types) && |t.schema| + |t.name| + 18 + |t.types| * (4 + 8 * STANDARD_VECTOR_SIZE) < 0x1_0000_0000
  }

  /** What a transaction has inserted fits into its tables, and its statements are texts. */
  predicate DeedsFit(tables: seq<TableEntry>, deeds: seq<UB.Deed>) {
    forall d :: d in deeds ==>
      match d
      case Inserted(t, row) => t < |tables| && TableFits(tables[t]) && RowFits(row, tables[t].types)
      case Asked(q) => IsText(q) && |q| < 0x1_0000_0000 - 4
  }

  // ----- sizes -----

  lemma {:induction false} TypeBytesSize(types: seq<nat>)
    ensures |TypeBytes(types)| == 4 * |types|
  {
    if types != [] { TypeBytesSize(types[..|types| - 1]); }
  }

  lemma {:induction false} ColumnBytesSize(column: seq<int>, width: nat)
    requires width <= 8
    ensures |ColumnBytes(column, width)| <= 8 * |column|
  {
    if column != [] { ColumnBytesSize(column[..|column| - 1], width); }
  }

  lemma {:induction false} ColumnsBytesSize(rows: seq<Tuple>, types: seq<nat>, n: nat)
    requires n <= |types| && Wide(rows, |types|) && |rows| <= STANDARD_VECTOR_SIZE
    ensures |ColumnsBytes(rows, types, n)| <= n * (8 * STANDARD_VECTOR_SIZE)
  {
    if n > 0 {
      ColumnsBytesSize(rows, types, n - 1);
      ColumnBytesSize(Column(rows, |types|, n - 1), TypeIdSize(types[n - 1]));
    }
  }

  lemma InsertBytesSize(t: TableEntry, rows: seq<Tuple>)
    requires TableFits(t) && Wide(rows, |t.types|) && |rows| <= STANDARD_VECTOR_SIZE
    ensures |InsertBytes(t, rows)| < 0x1_0000_0000 && |t.types| < 0x1_0000_0000
  {
    TypeBytesSize(t.types);
    ColumnsBytesSize(rows, t.types, |t.types|);
  }

  // ----- what is in a log is in the story -----

  lemma {:induction false} RecordIsTold(log: seq<UB.LogRecord>, i: nat, table: nat)
    requires i < |log|
    ensures forall item :: item in UB.RecordItems(log[i], table) ==> item in UB.LogItems(log, table)
    decreases |log|
  {
    var n := |log| - 1;
    if i < n { RecordIsTold(log[..n], i, table); }
  }

  lemma {:induction false} StoryIsOfDeeds(deeds: seq<UB.Deed>, table: nat, item: UB.Item)
    requires item in UB.Story(deeds, table)
    ensures (match item case RowItem(row) => UB.Inserted(table, row) case QueryItem(q) => UB.Asked(q)) in deeds
  {
    var n := |deeds| - 1;
    if item in UB.Story(deeds[..n], table) { StoryIsOfDeeds(deeds[..n], table, item); }
  }

  lemma InsertionFits(tables: seq<TableEntry>, log: seq<UB.LogRecord>, deeds: seq<UB.Deed>, i: nat)
    requires UB.WellSized(log) && i < |log| && log[i].Insert? && DeedsFit(tables, deeds)
    requires UB.LogItems(log, log[i].table) == UB.Story(deeds, log[i].table)
    ensures IsRecord(tables, log[i])
  {
    var t, rows := log[i].table, log[i].rows;
    RecordIsTold(log, i, t);
    forall r | 0 <= r < |rows| ensures t < |tables| && TableFits(tables[t]) && RowFits(rows[r], tables[t].types) {
      assert UB.RecordItems(log[i], t)[r] == UB.RowItem(rows[r]);
      StoryIsOfDeeds(deeds, t, UB.RowItem(rows[r]));
    }
    assert RowFits(rows[0], tables[t].types);
    InsertBytesSize(tables[t], rows);
  }

  /** The log of a commit whose story fits can be written. */
  lemma StoryIsLog(tables: seq<TableEntry>, log: seq<UB.LogRecord>, deeds: seq<UB.Deed>)
    requires UB.WellSized(log) && UB.OneFlush(log) && DeedsFit(tables, deeds)
    requires forall t :: UB.LogItems(log, t) == UB.Story(deeds, t)
    ensures IsLog(tables, log)
  {
    forall i | 0 <= i < |log| - 1 ensures IsRecord(tables, log[i]) {
      assert log[i] == log[..|log| - 1][i];
      match log[i]
      case Insert(t, rows) => InsertionFits(tables, log, deeds, i);
      case Query(q) =>
        RecordIsTold(log, i, 0);
        assert UB.RecordItems(log[i], 0)[0] == UB.QueryItem(q);
        StoryIsOfDeeds(deeds, 0, UB.QueryItem(q));
    }
  }

  // ----- what a replay finds, in rows and statements -----

  /** A replay that collects the rows inserted into one table. */
  function Collecting(table: nat): Actor<seq<Tuple>> {
    (rows: seq<Tuple>, r: UB.LogRecord) => Some(if r.Insert? && r.table == table then rows + r.rows else rows)
  }

  /** A replay that collects the statements. */
  function Repeating(): Actor<seq<string>> {
    (queries: seq<string>, r: UB.LogRecord) => Some(if r.Query? then queries + [r.query] else queries)
  }

  /** The rows that a transaction has inserted into a table, in order. */
  function RowsOf(deeds: seq<UB.Deed>, table: nat): seq<Tuple> {
    if deeds == [] then [] else
    var last := deeds[|deeds| - 1];
    RowsOf(deeds[..|deeds| - 1], table) + if last.Inserted? && last.table == table then [last.row] else []
  }

  /** The statements that it has run, in order. */
  function StatementsOf(deeds: seq<UB.Deed>): seq<string> {
    if deeds == [] then [] else
    var last := deeds[|deeds| - 1];
    StatementsOf(deeds[..|deeds| - 1]) + if last.Asked? then [last.query] else []
  }

  function AllRows(told: seq<seq<UB.Deed>>, table: nat): seq<Tuple> {
    if told == [] then [] else RowsOf(told[0], table) + AllRows(told[1..], table)
  }

  function AllStatements(told: seq<seq<UB.Deed>>): seq<string> {
    if told == [] then [] else StatementsOf(told[0]) + AllStatements(told[1..])
  }

  function RowsIn(items: seq<UB.Item>): seq<Tuple> {
    if items == [] then [] else
    var last := items[|items| - 1];
    RowsIn(items[..|items| - 1]) + match last case RowItem(row) => [row] case QueryItem(_) => []
  }

  function StatementsIn(items: seq<UB.Item>): seq<string> {
    if items == [] then [] else
    var last := items[|items| - 1];
    StatementsIn(items[..|items| - 1]) + match last case RowItem(_) => [] case QueryItem(q) => [q]
  }

  lemma {:induction false} ItemsJoin(a: seq<UB.Item>, b: seq<UB.Item>)
    ensures RowsIn(a + b) == RowsIn(a) + RowsIn(b) && StatementsIn(a + b) == StatementsIn(a) + StatementsIn(b)
    decreases |b|
  {
    if b == [] {
      assert a + b == a;
    } else {
      var n := |b| - 1;
      ItemsJoin(a, b[..n]);
      ItemsPush(a + b[..n], b[n]);
      ItemsPush(b[..n], b[n]);
      assert a + b == a + b[..n] + [b[n]] && b == b[..n] + [b[n]];
      JoinAssociates(RowsIn(a), RowsIn(b[..n]), RowsIn([b[n]]));
      JoinAssociates(StatementsIn(a), StatementsIn(b[..n]), StatementsIn([b[n]]));
    }
  }

  lemma ItemsPush(items: seq<UB.Item>, item: UB.Item)
    ensures RowsIn(items + [item]) == RowsIn(items) + RowsIn([item])
    ensures StatementsIn(items + [item]) == StatementsIn(items) + StatementsIn([item])
  {
    assert (items + [item])[..|items|] == items;
    assert RowsIn([item]) == RowsIn([]) + RowsIn([item]) && StatementsIn([item]) == StatementsIn([]) + StatementsIn([item]);
  }

  lemma {:induction false} RowItemsAre(rows: seq<Tuple>)
    ensures RowsIn(UB.RowItems(rows)) == rows && StatementsIn(UB.RowItems(rows)) == []
  {
    if rows != [] {
      var n := |rows| - 1;
      RowItemsAre(rows[..n]);
      assert UB.RowItems(rows)[..n] == UB.RowItems(rows[..n]);
    }
  }

  lemma {:induction false} StoryIs(deeds: seq<UB.Deed>, table: nat)
    ensures RowsIn(UB.Story(deeds, table)) == RowsOf(deeds, table) && StatementsIn(UB.Story(deeds, table)) == StatementsOf(deeds)
  {
    if deeds != [] {
      var n := |deeds| - 1;
      var item := match deeds[n] case Inserted(t, row) => (if t == table then [UB.RowItem(row)] else []) case Asked(q) => [UB.QueryItem(q)];
      StoryIs(deeds[..n], table);
      ItemsJoin(UB.Story(deeds[..n], table), item);
    }
  }

  lemma RecordIs(r: UB.LogRecord, table: nat)
    ensures RowsIn(UB.RecordItems(r, table)) == (if r.Insert? && r.table == table then r.rows else [])
    ensures StatementsIn(UB.RecordItems(r, table)) == (if r.Query? then [r.query] else [])
  {
    if r.Insert? { RowItemsAre(r.rows); }
  }

  lemma CollectsNext(rows: seq<Tuple>, r: UB.LogRecord, table: nat)
    ensures Collecting(table)(rows, r) == Some(rows + RowsIn(UB.RecordItems(r, table)))
  {
    RecordIs(r, table);
    assert rows + [] == rows;
  }

  lemma RepeatsNext(queries: seq<string>, r: UB.LogRecord, table: nat)
    ensures Repeating()(queries, r) == Some(queries + StatementsIn(UB.RecordItems(r, table)))
  {
    RecordIs(r, table);
    assert queries + [] == queries;
  }

  lemma {:induction false} LogRows(rows: seq<Tuple>, log: seq<UB.LogRecord>, n: nat, table: nat)
    requires n <= |log|
    ensures ActAll(rows, log, n, Collecting(table)) == Some(rows + RowsIn(UB.LogItems(log[..n], table)))
    decreases n
  {
    if n == 0 {
      assert rows + RowsIn(UB.LogItems([], table)) == rows;
    } else {
      var r := log[n - 1];
      LogRows(rows, log, n - 1, table);
      assert log[..n] == log[..n - 1] + [r];
      UB.LogPush(log[..n - 1], r, table);
      ItemsJoin(UB.LogItems(log[..n - 1], table), UB.RecordItems(r, table));
      CollectsNext(rows + RowsIn(UB.LogItems(log[..n - 1], table)), r, table);
      JoinAssociates(rows, RowsIn(UB.LogItems(log[..n - 1], table)), RowsIn(UB.RecordItems(r, table)));
    }
  }

  lemma OneRows(rows: seq<Tuple>, log: seq<UB.LogRecord>, deeds: seq<UB.Deed>, table: nat)
    requires log != [] && log[|log| - 1] == UB.Flush && UB.LogItems(log, table) == UB.Story(deeds, table)
    ensures ActAll(rows, log, |log| - 1, Collecting(table)) == Some(rows + RowsOf(deeds, table))
  {
    LogRows(rows, log, |log| - 1, table);
    MarkerTellsNothing(log, table);
    StoryIs(deeds, table);
  }

  lemma {:induction false} LogsRows(rows: seq<Tuple>, logs: seq<seq<UB.LogRecord>>, told: seq<seq<UB.Deed>>, table: nat)
    requires |logs| == |told| && forall i :: 0 <= i < |logs| ==> logs[i] != [] && logs[i][|logs[i]| - 1] == UB.Flush
    requires forall i :: 0 <= i < |logs| ==> UB.LogItems(logs[i], table) == UB.Story(told[i], table)
    ensures ActLogs(rows, logs, Collecting(table)) == rows + AllRows(told, table)
    decreases |logs|
  {
    if logs == [] {
      assert rows + AllRows([], table) == rows;
    } else {
      var more := RowsOf(told[0], table);
      OneRows(rows, logs[0], told[0], table);
      ActLogsStep(rows, logs, Collecting(table), rows + more);
      LogsRows(rows + more, logs[1..], told[1..], table);
      JoinAssociates(rows, more, AllRows(told[1..], table));
    }
  }

  lemma {:induction false} LogStatements(queries: seq<string>, log: seq<UB.LogRecord>, n: nat, table: nat)
    requires n <= |log|
    ensures ActAll(queries, log, n, Repeating()) == Some(queries + StatementsIn(UB.LogItems(log[..n], table)))
    decreases n
  {
    if n == 0 {
      assert queries + StatementsIn(UB.LogItems([], table)) == queries;
    } else {
      var r := log[n - 1];
      LogStatements(queries, log, n - 1, table);
      assert log[..n] == log[..n - 1] + [r];
      UB.LogPush(log[..n - 1], r, table);
      ItemsJoin(UB.LogItems(log[..n - 1], table), UB.RecordItems(r, table));
      RepeatsNext(queries + StatementsIn(UB.LogItems(log[..n - 1], table)), r, table);
      JoinAssociates(queries, StatementsIn(UB.LogItems(log[..n - 1], table)), StatementsIn(UB.RecordItems(r, table)));
    }
  }

  lemma OneStatements(queries: seq<string>, log: seq<UB.LogRecord>, deeds: seq<UB.Deed>, table: nat)
    requires log != [] && log[|log| - 1] == UB.Flush && UB.LogItems(log, table) == UB.Story(deeds, table)
    ensures ActAll(queries, log, |log| - 1, Repeating()) == Some(queries + StatementsOf(deeds))
  {
    LogStatements(queries, log, |log| - 1, table);
    MarkerTellsNothing(log, table);
    StoryIs(deeds, table);
  }

  lemma {:induction false} LogsStatements(queries: seq<string>, logs: seq<seq<UB.LogRecord>>, told: seq<seq<UB.Deed>>, table: nat)
    requires |logs| == |told| && forall i :: 0 <= i < |logs| ==> logs[i] != [] && logs[i][|logs[i]| - 1] == UB.Flush
    requires forall i :: 0 <= i < |logs| ==> UB.LogItems(logs[i], table) == UB.Story(told[i], table)
    ensures ActLogs(queries, logs, Repeating()) == queries + AllStatements(told)
    decreases |logs|
  {
    if logs == [] {
      assert queries + AllStatements([]) == queries;
    } else {
      var more := StatementsOf(told[0]);
      OneStatements(queries, logs[0], told[0], table);
      ActLogsStep(queries, logs, Repeating(), queries + more);
      LogsStatements(queries + more, logs[1..], told[1..], table);
      JoinAssociates(queries, more, AllStatements(told[1..]));
    }
  }

  class LoggedDatabase {
    const database: DB.Database
    const wal: WriteAheadLog
    /** What the committed transactions have done, in the order of their commits. */
    ghost var told: seq<seq<UB.Deed>>

    ghost predicate Valid()
      reads this, database.Parts(), wal
    {
      && database.Valid() && wal.Valid() && |told| == |wal.logs|
      && forall i, t :: 0 <= i < |told| ==> UB.LogItems(wal.logs[i], t) == UB.Story(told[i], t)
    }

    constructor (database: DB.Database, wal: WriteAheadLog)
      requires database.Valid() && wal.Valid() && wal.logs == []
      ensures Valid() && this.database == database && this.wal == wal && told == []
    {
      this.database, this.wal, told := database, wal, [];
      new;
      Separate();
    }

    lemma Separate()
      ensures {this, wal} !! database.Parts()
    {
    }

    method CommitRows(id: nat) returns (log: seq<UB.LogRecord>)
      requires Valid() && Enabled(After(database.engine.history), Event.Commit(id))
      requires DeedsFit(wal.tables, database.engine.StoryOf(id))
      modifies database.engine, database.engine.storage
      ensures Valid() && database.engine.history == old(database.engine.history) + [Event.Commit(id)]
      ensures IsLog(wal.tables, log) && forall t :: UB.LogItems(log, t) == UB.Story(old(database.engine.StoryOf(id)), t)
    {
      Separate();
      log := database.Commit(id);
      StoryIsLog(wal.tables, log, old(database.engine.StoryOf(id)));
    }

    /** Commits, and writes the log. */
    method Commit(id: nat)
      requires Valid() && Enabled(After(database.engine.history), Event.Commit(id))
      requires DeedsFit(wal.tables, database.engine.StoryOf(id))
      modifies this`told, wal, database.engine, database.engine.storage
      ensures Valid() && database.engine.history == old(database.engine.history) + [Event.Commit(id)]
      ensures told == old(told) + [old(database.engine.StoryOf(id))]
    {
      ghost var story := database.engine.StoryOf(id);
      var log := CommitRows(id);
      Separate();
      wal.WriteCommit(log);
      told := told + [story];
    }

    /** After a crash at any byte of the log, a replay finds for every table what the first of the committed transactions
        have inserted and asked for, in the order of their commits, and all of each of them. */
    lemma CrashKeepsCommits(n: nat, table: nat)
      requires Valid() && n <= |wal.file|
      ensures AreLogs(wal.tables, wal.logs)
      ensures ReplayFrom([], [], wal.file[..n], ReplayRecord(wal.tables, Telling(table)))
           == Stories(told[..Whole(GroupsOf(wal.tables, wal.logs), n)], table)
    {
      CrashKeepsStories(wal.tables, wal.logs, told, n, table);
    }

    /** In rows and statements: what a replay inserts into a table is what the first of the committed transactions inserted into
        it, in order, and the statements that it repeats are theirs. */
    lemma CrashKeepsRows(n: nat, table: nat)
      requires Valid() && n <= |wal.file|
      ensures AreLogs(wal.tables, wal.logs)
      ensures var k := Whole(GroupsOf(wal.tables, wal.logs), n);
        && ReplayFrom([], [], wal.file[..n], ReplayRecord(wal.tables, Collecting(table))) == AllRows(told[..k], table)
        && ReplayFrom([], [], wal.file[..n], ReplayRecord(wal.tables, Repeating())) == AllStatements(told[..k])
    {
      var k := Whole(GroupsOf(wal.tables, wal.logs), n);
      CommitsAreDurable(wal.tables, [], wal.logs, n, Collecting(table));
      CommitsAreDurable(wal.tables, [], wal.logs, n, Repeating());
      assert forall i :: 0 <= i < |wal.logs| ==> IsLog(wal.tables, wal.logs[i]);
      LogsRows([], wal.logs[..k], told[..k], table);
      LogsStatements([], wal.logs[..k], told[..k], table);
    }

    /** A transaction that inserts rows and commits: the log tells of exactly these rows, after whatever it told before. */
    method Insert(j: nat, rows: seq<Tuple>)
      requires Valid() && j < |database.tables| && |rows| <= STANDARD_VECTOR_SIZE
      requires After(database.engine.history).clock + 1 < TRANSACTION_ID_START
      requires DeedsFit(wal.tables, Insertions(database.tables[j].table, rows))
      modifies this`told, wal, database.tables[j], database.engine, database.engine.storage
      ensures Valid() && told == old(told) + [Insertions(database.tables[j].table, rows)]
    {
      var id := StartAndAppend(j, rows);
      Commit(id);
    }

    method StartAndAppend(j: nat, rows: seq<Tuple>) returns (id: nat)
      requires Valid() && j < |database.tables| && |rows| <= STANDARD_VECTOR_SIZE
      requires After(database.engine.history).clock + 1 < TRANSACTION_ID_START
      modifies database.tables[j], database.engine, database.engine.storage
      ensures Valid() && Enabled(After(database.engine.history), Event.Commit(id))
      ensures database.engine.StoryOf(id) == Insertions(database.tables[j].table, rows)
    {
      ghost var h := database.engine.history;
      Separate();
      var started;
      started, id := database.Start();
      StaysEnabled(h, id, NewSlots(|database.engine.storage.chains|, |rows|), Somes(rows));
      AfterBegin(h);
      database.Append(j, id, rows);
      assert [] + Insertions(database.tables[j].table, rows) == Insertions(database.tables[j].table, rows);
    }

    lemma StaysEnabled(h: History, id: nat, slots: seq<nat>, values: seq<Option<Tuple>>)
      requires |slots| == |values| && IsActive(After(h + [Begin]), id) && After(h).clock + 1 < TRANSACTION_ID_START
      ensures After(h + [Begin] + WriteEvents(id, slots, values)).clock < TRANSACTION_ID_START
    {
      AfterBegin(h);
      ClockStays(h + [Begin], id, slots, values);
    }
  }

  lemma {:induction false} ClockStays(h: History, id: nat, slots: seq<nat>, values: seq<Option<Tuple>>)
    requires |slots| == |values|
    ensures After(h + WriteEvents(id, slots, values)).clock == After(h).clock
    decreases |slots|
  {
    if slots == [] {
      assert h + WriteEvents(id, slots, values) == h;
    } else {
      var n := |slots| - 1;
      ClockStays(h, id, slots[..n], values[..n]);
      WriteEventsStep(h, id, slots, values, n);
      assert slots[..n + 1] == slots && values[..n + 1] == values;
      AfterWrite(h + WriteEvents(id, slots[..n], values[..n]), id, slots[n], values[n]);
    }
  }
}
