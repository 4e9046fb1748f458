/** A database: several tables on one engine, with and without a unique index.

  Whatever is called in whatever order, every table stays what its own operations need, the keys of
  every indexed table stay apart, and a scan gives the rows of its transaction's snapshot. */
module Database {
  import opened Versions
  import opened Mvcc
  import opened Snapshot
  import opened Reference
  import opened TableStorage
  import opened Engine
  import opened Uniqueness
  import opened IndexTree
  import opened UniqueIndex
  import DataTable
  import UT = UniqueTable
  import opened Inserts
  import opened RowIdentifiers
  import UB = UndoBuffer

  /** All that happened in the engine are writes of one transaction to rows of one table, n of them new. */
  ghost predicate Wrote(h: History, h': History, tableOf: seq<nat>, tableOf': seq<nat>, owner: nat,
                        id: nat, slots: seq<nat>, values: seq<Option<Tuple>>, n: nat) {
    && |slots| == |values| && MayWrite(After(h), id, slots) && h' == h + WriteEvents(id, slots, values)
    && tableOf' == tableOf + Copies(owner, n)
    && forall i :: 0 <= i < |slots| ==> slots[i] < |tableOf'| && tableOf'[slots[i]] == owner
  }

  /** Tables keep their rows while another one grows. */
  lemma TableKept(t: DataTable.DataTable, tableOf: seq<nat>, owner: nat, n: nat)
    requires t.engine.Valid() && DataTable.Shape(t.chunks) && DataTable.Rows(t.chunks) == DataTable.SlotsOf(tableOf, t.table)
    requires t.engine.storage.tableOf == tableOf + Copies(owner, n) && (n == 0 || owner != t.table)
    ensures t.Valid()
  {
    DataTable.SlotsOfCopies(tableOf, owner, n);
    assert n == 0 ==> tableOf + Copies(owner, n) == tableOf;
  }

  /** What is known of a table with an index before another table is written. */
  ghost predicate Before(index: UniqueIndex, db: Db, h: History, tableOf: seq<nat>)
    reads index, index.table
  {
    var rows := DataTable.Rows(index.table.chunks);
    && index.Valid() && DataTable.Shape(index.table.chunks) && rows == DataTable.SlotsOf(tableOf, index.table.table)
    && RowsKnown(index.tree, |rows|)
    && Unique(db, index.columns) && db == Db(After(h), UT.Nodes(index.tree, rows), SlotSet(rows))
  }

  /** The same of a table without one. */
  ghost predicate TableBefore(t: DataTable.DataTable, h: History, tableOf: seq<nat>)
    reads t
  {
    && DataTable.Shape(t.chunks) && DataTable.Rows(t.chunks) == DataTable.SlotsOf(tableOf, t.table)
    && Guarded(t, After(h).cells)
  }

  lemma OtherIndexKept(index: UniqueIndex, db: Db, h: History, tableOf: seq<nat>, owner: nat,
                       id: nat, slots: seq<nat>, values: seq<Option<Tuple>>, n: nat)
    requires Before(index, db, h, tableOf) && index.table.engine.Valid() && owner != index.table.table
    requires Wrote(h, index.table.engine.history, tableOf, index.table.engine.storage.tableOf, owner, id, slots, values, n)
    ensures UT.Good(index)
  {
    TableKept(index.table, tableOf, owner, n);
    DataTable.SlotsListed(tableOf, index.table.table);
    forall i | 0 <= i < |slots| ensures slots[i] !in db.own {
      if slots[i] < |tableOf| { assert (tableOf + Copies(owner, n))[slots[i]] == tableOf[slots[i]]; }
    }
    UT.ForeignKeepsGood(index, db, h, id, slots, values);
  }

  lemma IndexKeptByEvent(index: UniqueIndex, db: Db, h: History, tableOf: seq<nat>, event: Event<nat, Tuple>)
    requires Before(index, db, h, tableOf) && index.table.engine.Valid() && index.table.engine.storage.tableOf == tableOf
    requires !Writes(event) && index.table.engine.history == h + [event]
    ensures UT.Good(index)
  {
    UT.EventKeepsGood(index, db, h, event);
  }

  /** New rows may be written by any running transaction, and belong to their table. */
  lemma AppendWrote(h: History, tableOf: seq<nat>, owner: nat, id: nat, slots: seq<nat>, values: seq<Option<Tuple>>)
    requires IsActive(After(h), id) && |slots| == |values| && slots == NewSlots(|tableOf|, |slots|)
    requires forall slot: nat :: slot in After(h).cells <==> slot < |tableOf|
    ensures Wrote(h, h + WriteEvents(id, slots, values), tableOf, tableOf + Copies(owner, |slots|), owner, id, slots, values, |slots|)
  {
  }

  /** In a build with assertions, no row of the table behind the first chunk is written after its insertion. */
  ghost predicate Guarded(t: DataTable.DataTable, cells: map<nat, Cell<Tuple>>)
    reads t
  {
    t.asserts ==> Spared(cells, DataTable.Rows(t.chunks))
  }

  /** A guarded table, when something else happens. */
  lemma GuardedByEvent(t: DataTable.DataTable, h: History, e: Event<nat, Tuple>)
    requires Guarded(t, After(h).cells) && !Writes(e)
    ensures Guarded(t, After(h + [e]).cells)
  {
    if t.asserts { SparedByEvent(h, e, DataTable.Rows(t.chunks)); }
  }

  lemma GuardedByOthers(t: DataTable.DataTable, h: History, h': History, tableOf: seq<nat>, tableOf': seq<nat>, owner: nat,
                        id: nat, slots: seq<nat>, values: seq<Option<Tuple>>, n: nat)
    requires Guarded(t, After(h).cells) && owner != t.table && Wrote(h, h', tableOf, tableOf', owner, id, slots, values, n)
    requires DataTable.Rows(t.chunks) == DataTable.SlotsOf(tableOf, t.table)
    requires forall slot: nat :: slot < |tableOf| ==> slot in After(h).cells
    ensures Guarded(t, After(h').cells)
  {
    if t.asserts {
      var rows := DataTable.Rows(t.chunks);
      DataTable.SlotsListed(tableOf, t.table);
      forall number | DataTable.STORAGE_CHUNK_SIZE <= number < |rows| ensures rows[number] in After(h).cells && rows[number] !in slots {
        assert rows[number] in rows && rows[number] < |tableOf| && tableOf'[rows[number]] == tableOf[rows[number]];
      }
      SparedByWrites(h, id, slots, values, rows);
    }
  }

  /** The rows of a delete or update are rows of the first chunk, or none at all. */
  lemma GuardedByRows(t: DataTable.DataTable, h: History, id: nat, numbers: seq<nat>, n: nat, values: seq<Option<Tuple>>)
    requires t.Valid() && Guarded(t, After(h).cells) && numbers != [] && t.DistinctRows(numbers) && IsActive(After(h), id)
    requires n <= |numbers| && |values| == n && (t.Refuses(numbers[0]) ==> n == 0)
    requires forall slot: nat :: slot < |t.engine.storage.tableOf| ==> slot in After(h).cells
    ensures Guarded(t, After(h + WriteEvents(id, t.SlotsFor(numbers)[..n], values)).cells)
  {
    if t.asserts {
      var rows, slots := DataTable.Rows(t.chunks), t.SlotsFor(numbers);
      DataTable.SlotsListed(t.engine.storage.tableOf, t.table);
      forall number | DataTable.STORAGE_CHUNK_SIZE <= number < |rows| ensures rows[number] in After(h).cells && rows[number] !in slots[..n] {
        assert rows[number] in rows;
        forall i | 0 <= i < n ensures slots[i] != rows[number] {
          assert numbers[i] / DataTable.STORAGE_CHUNK_SIZE == numbers[0] / DataTable.STORAGE_CHUNK_SIZE == 0;
          assert numbers[i] < number;
        }
      }
      SparedByWrites(h, id, slots[..n], values, rows);
    }
  }

  lemma GuardedByAppend(t: DataTable.DataTable, rows: seq<nat>, h: History, id: nat, slots: seq<nat>, values: seq<Option<Tuple>>, tableOf: seq<nat>)
    requires t.asserts ==> Spared(After(h).cells, rows)
    requires rows == DataTable.SlotsOf(tableOf, t.table)
    requires DataTable.Rows(t.chunks) == DataTable.SlotsOf(tableOf + Copies(t.table, |slots|), t.table)
    requires IsActive(After(h), id) && |slots| == |values| && slots == NewSlots(|tableOf|, |slots|)
    requires forall slot: nat :: slot in After(h).cells <==> slot < |tableOf|
    ensures Guarded(t, After(h + WriteEvents(id, slots, values)).cells)
  {
    if t.asserts {
      DataTable.SlotsListed(tableOf, t.table);
      DataTable.SlotsOfCopies(tableOf, t.table, |slots|);
      SparedByAppend(h, id, slots, values, rows);
    }
  }

  /** The rows before the first conflict may be written. */
  lemma RowsWrote(h: History, tableOf: seq<nat>, owner: nat, id: nat, slots: seq<nat>, values: seq<Option<Tuple>>, n: nat)
    requires IsActive(After(h), id) && AllDistinct(slots) && n <= Accepted(After(h).cells, id, slots) && |values| == n
    requires forall i :: 0 <= i < |slots| ==> slots[i] in DataTable.SlotsOf(tableOf, owner)
    ensures Wrote(h, h + WriteEvents(id, slots[..n], values), tableOf, tableOf, owner, id, slots[..n], values, 0)
  {
    AcceptedSplits(After(h).cells, id, slots);
    DataTable.SlotsListed(tableOf, owner);
    assert tableOf + Copies(owner, 0) == tableOf;
  }

  /** What an update writes, as far as it gets. */
  ghost function Written(s: State<nat, Tuple>, slots: seq<nat>, values: seq<Option<Tuple>>, outcome: UT.UpdateOutcome): (written: seq<Option<Tuple>>)
    requires |values| == |slots|
    ensures |written| == |slots|
  {
    if outcome.AllUpdated? then values else Contents(s, slots)
  }

  lemma UpdateWrote(h: History, tableOf: seq<nat>, owner: nat, id: nat, slots: seq<nat>, values: seq<Option<Tuple>>, outcome: UT.UpdateOutcome)
    requires IsActive(After(h), id) && AllDistinct(slots) && |values| == |slots|
    requires outcome.AllUpdated? ==> Accepted(After(h).cells, id, slots) == |slots|
    requires forall i :: 0 <= i < |slots| ==> slots[i] in DataTable.SlotsOf(tableOf, owner)
    ensures var m := if outcome.Violation? || outcome.AssertionFailed? then 0 else Accepted(After(h).cells, id, slots);
      Wrote(h, h + UT.UpdateEvents(After(h), id, slots, values, outcome), tableOf, tableOf, owner, id, slots[..m],
            Written(After(h), slots, values, outcome)[..m], 0)
  {
    var s := After(h);
    var n := Accepted(s.cells, id, slots);
    if outcome.Violation? || outcome.AssertionFailed? {
      RowsWrote(h, tableOf, owner, id, [], [], 0);
      assert slots[..0] == [] && Written(s, slots, values, outcome)[..0] == [] && [][..0] == WriteEvents(id, [], []);
    } else {
      RowsWrote(h, tableOf, owner, id, slots, Written(s, slots, values, outcome)[..n], n);
      assert outcome.AllUpdated? ==> slots[..n] == slots && values[..n] == values;
    }
  }

  class Database {
    const engine: Engine
    const indexes: seq<UniqueIndex>
    const tables: seq<DataTable.DataTable>

    /** Every table has a number of its own. */
    ghost predicate Numbered() {
      && (forall i :: 0 <= i < |indexes| ==> indexes[i].table.engine == engine)
      && (forall j :: 0 <= j < |tables| ==> tables[j].engine == engine)
      && (forall i, j :: 0 <= i < j < |indexes| ==> indexes[i].table.table != indexes[j].table.table)
      && (forall i, j :: 0 <= i < j < |tables| ==> tables[i].table != tables[j].table)
      && (forall i, j :: 0 <= i < |indexes| && 0 <= j < |tables| ==> indexes[i].table.table != tables[j].table)
    }

    ghost function Parts(): set<object> {
      {engine, engine.storage} + (set i | 0 <= i < |indexes| :: indexes[i]) + (set i | 0 <= i < |indexes| :: indexes[i].table)
        + (set j | 0 <= j < |tables| :: tables[j])
    }

    ghost predicate Whole()
      reads Parts()
    {
      && Numbered() && engine.Valid() && NoRewrites(engine.history)
      && (forall i :: 0 <= i < |indexes| ==> UT.Good(indexes[i]) && Guarded(indexes[i].table, After(engine.history).cells))
      && (forall j :: 0 <= j < |tables| ==> tables[j].Valid() && Guarded(tables[j], After(engine.history).cells))
    }

    /** Whole(), closed. */
    ghost predicate Closed(n: nat := CLOSED)
      reads Parts()
      decreases |indexes|, n
    {
      if n == 0 then Whole() else Closed(n - 1)
    }

    ghost predicate Valid()
      reads Parts()
    {
      Numbered() && Closed()
    }

    lemma {:induction false} Open(n: nat := CLOSED)
      ensures Closed(n) == Whole()
      decreases n
    {
      if n > 0 { Open(n - 1); }
    }

    constructor (engine: Engine, indexes: seq<UniqueIndex>, tables: seq<DataTable.DataTable>)
      requires forall i :: 0 <= i < |indexes| ==>
        indexes[i].table.engine == engine && UT.Good(indexes[i]) && Guarded(indexes[i].table, After(engine.history).cells)
      requires forall j :: 0 <= j < |tables| ==>
        tables[j].engine == engine && tables[j].Valid() && Guarded(tables[j], After(engine.history).cells)
      requires forall i, j :: 0 <= i < j < |indexes| ==> indexes[i].table.table != indexes[j].table.table
      requires forall i, j :: 0 <= i < j < |tables| ==> tables[i].table != tables[j].table
      requires forall i, j :: 0 <= i < |indexes| && 0 <= j < |tables| ==> indexes[i].table.table != tables[j].table
      requires engine.Valid() && NoRewrites(engine.history)
      ensures Valid() && this.engine == engine && this.indexes == indexes && this.tables == tables
    {
      this.engine, this.indexes, this.tables := engine, indexes, tables;
      new;
      Open();
    }

    /** What is known of all tables before an operation. */
    ghost predicate AllBefore(dbs: seq<Db>, h: History, tableOf: seq<nat>)
      reads Parts()
    {
      && Numbered() && |dbs| == |indexes| && NoRewrites(h)
      && (forall slot: nat :: slot in After(h).cells <==> slot < |tableOf|)
      && (forall i :: 0 <= i < |indexes| ==> Before(indexes[i], dbs[i], h, tableOf) && Guarded(indexes[i].table, After(h).cells))
      && (forall j :: 0 <= j < |tables| ==> TableBefore(tables[j], h, tableOf))
    }

    /** The first tables with their indexes. */
    ghost function States(n: nat): (dbs: seq<Db>)
      requires Numbered() && n <= |indexes|
      reads Parts()
      ensures |dbs| == n && forall i :: 0 <= i < n ==> dbs[i] == UT.StateOf(indexes[i])
    {
      if n == 0 then [] else States(n - 1) + [UT.StateOf(indexes[n - 1])]
    }

    lemma Remembered()
      requires Valid()
      ensures Whole() && AllBefore(States(|indexes|), engine.history, engine.storage.tableOf)
    {
      Open();
      engine.SlotsShow();
    }

    // ----- transactions -----

    /** After a start, a commit, a rollback or a query. */
    lemma AfterEvent(dbs: seq<Db>, h: History, tableOf: seq<nat>, event: Event<nat, Tuple>)
      requires AllBefore(dbs, h, tableOf) && engine.Valid() && engine.storage.tableOf == tableOf
      requires !Writes(event) && engine.history == h + [event]
      ensures Valid()
    {
      forall i | 0 <= i < |indexes| ensures UT.Good(indexes[i]) && Guarded(indexes[i].table, After(engine.history).cells) {
        IndexKeptByEvent(indexes[i], dbs[i], h, tableOf, event);
        GuardedByEvent(indexes[i].table, h, event);
      }
      forall j | 0 <= j < |tables| ensures Guarded(tables[j], After(engine.history).cells) {
        GuardedByEvent(tables[j], h, event);
      }
      Open();
    }

    method Start() returns (started: bool, id: nat)
      requires Valid()
      modifies engine
      ensures Valid() && engine.history == old(engine.history) + [Begin]
      ensures started == Enabled(After(old(engine.history)), Begin) && id == After(old(engine.history)).nextId
      ensures started ==> IsActive(After(engine.history), id) && engine.StoryOf(id) == []
    {
      Remembered();
      ghost var dbs := States(|indexes|);
      started, id := engine.StartTransaction();
      AfterEvent(dbs, old(engine.history), old(engine.storage.tableOf), Begin);
    }

    method Commit(id: nat) returns (log: seq<UB.LogRecord>)
      requires Valid() && Enabled(After(engine.history), Event.Commit(id))
      modifies engine, engine.storage
      ensures Valid() && engine.history == old(engine.history) + [Event.Commit(id)]
      ensures engine.storage.tableOf == old(engine.storage.tableOf) && engine.stories == old(engine.stories)
      ensures UB.WellSized(log) && UB.OneFlush(log)
      ensures forall t :: UB.LogItems(log, t) == UB.Story(old(engine.StoryOf(id)), t)
    {
      Remembered();
      ghost var dbs := States(|indexes|);
      log := engine.Commit(id);
      AfterEvent(dbs, old(engine.history), old(engine.storage.tableOf), Event.Commit(id));
    }

    method Rollback(id: nat)
      requires Valid() && IsActive(After(engine.history), id)
      modifies engine, engine.storage
      ensures Valid() && engine.history == old(engine.history) + [Event.Rollback(id)]
    {
      Remembered();
      ghost var dbs := States(|indexes|);
      engine.Rollback(id);
      AfterEvent(dbs, old(engine.history), old(engine.storage.tableOf), Event.Rollback(id));
    }

    method BeginQuery(id: nat)
      requires Valid() && Enabled(After(engine.history), Event.BeginQuery(id))
      modifies engine
      ensures Valid() && engine.history == old(engine.history) + [Event.BeginQuery(id)]
    {
      Remembered();
      ghost var dbs := States(|indexes|);
      engine.BeginQuery(id);
      AfterEvent(dbs, old(engine.history), old(engine.storage.tableOf), Event.BeginQuery(id));
    }

    method EndQuery(id: nat)
      requires Valid() && IsActive(After(engine.history), id)
      modifies engine
      ensures Valid() && engine.history == old(engine.history) + [Event.EndQuery(id)]
    {
      Remembered();
      ghost var dbs := States(|indexes|);
      engine.EndQuery(id);
      AfterEvent(dbs, old(engine.history), old(engine.storage.tableOf), Event.EndQuery(id));
    }

    // ----- the tables -----

    /** What is known of the other tables before one of them is written. */
    ghost predicate OthersBefore(owner: nat, dbs: seq<Db>, h: History, tableOf: seq<nat>)
      reads Parts()
    {
      && Numbered() && |dbs| == |indexes| && NoRewrites(h)
      && (forall i :: 0 <= i < |indexes| && indexes[i].table.table != owner ==> Before(indexes[i], dbs[i], h, tableOf))
      && (forall slot: nat :: slot in After(h).cells <==> slot < |tableOf|)
      && (forall i :: 0 <= i < |indexes| && indexes[i].table.table != owner ==> Guarded(indexes[i].table, After(h).cells))
      && (forall j :: 0 <= j < |tables| && tables[j].table != owner ==> TableBefore(tables[j], h, tableOf))
    }

    lemma AfterWrites(owner: nat, dbs: seq<Db>, h: History, tableOf: seq<nat>, id: nat, slots: seq<nat>, values: seq<Option<Tuple>>, n: nat)
      requires OthersBefore(owner, dbs, h, tableOf) && engine.Valid()
      requires Wrote(h, engine.history, tableOf, engine.storage.tableOf, owner, id, slots, values, n)
      requires forall i :: 0 <= i < |indexes| && indexes[i].table.table == owner ==>
        UT.Good(indexes[i]) && Guarded(indexes[i].table, After(engine.history).cells)
      requires forall j :: 0 <= j < |tables| && tables[j].table == owner ==>
        tables[j].Valid() && Guarded(tables[j], After(engine.history).cells)
      ensures Valid()
    {
      forall i | 0 <= i < |indexes| ensures UT.Good(indexes[i]) && Guarded(indexes[i].table, After(engine.history).cells) {
        if indexes[i].table.table != owner {
          OtherIndexKept(indexes[i], dbs[i], h, tableOf, owner, id, slots, values, n);
          GuardedByOthers(indexes[i].table, h, engine.history, tableOf, engine.storage.tableOf, owner, id, slots, values, n);
        }
      }
      forall j | 0 <= j < |tables| ensures tables[j].Valid() && Guarded(tables[j], After(engine.history).cells) {
        if tables[j].table != owner {
          TableKept(tables[j], tableOf, owner, n);
          GuardedByOthers(tables[j], h, engine.history, tableOf, engine.storage.tableOf, owner, id, slots, values, n);
        }
      }
      Open();
    }

    /** No other table has the number of the table, and if it has an index the keys of that are apart. */
    ghost predicate Alone(t: DataTable.DataTable)
      reads Parts()
    {
      && Numbered()
      && (forall i :: 0 <= i < |indexes| && indexes[i].table.table == t.table ==> indexes[i].table == t && UT.Good(indexes[i]))
      && (forall j :: 0 <= j < |tables| && tables[j].table == t.table ==> tables[j] == t)
    }

    lemma IndexedIsAlone(i: nat)
      requires Numbered() && i < |indexes| && UT.Good(indexes[i])
      ensures Alone(indexes[i].table)
    {
    }

    lemma TableIsAlone(j: nat)
      requires Numbered() && j < |tables|
      ensures Alone(tables[j])
    {
    }

    /** After a delete or update of rows of one table. */
    lemma AfterRows(t: DataTable.DataTable, dbs: seq<Db>, h: History, tableOf: seq<nat>, id: nat, numbers: seq<nat>, n: nat, values: seq<Option<Tuple>>)
      requires OthersBefore(t.table, dbs, h, tableOf) && engine.Valid() && engine.storage.tableOf == tableOf
      requires t.engine == engine && t.Valid() && Guarded(t, After(h).cells) && IsActive(After(h), id)
      requires numbers != [] && t.DistinctRows(numbers) && n <= t.Reached(After(h), id, numbers) && |values| == n
      requires engine.history == h + WriteEvents(id, t.SlotsFor(numbers)[..n], values)
      requires Alone(t)
      ensures Valid()
    {
      SlotsListed(t, numbers);
      RowsWrote(h, tableOf, t.table, id, t.SlotsFor(numbers), values, n);
      GuardedByRows(t, h, id, numbers, n, values);
      AfterWrites(t.table, dbs, h, tableOf, id, t.SlotsFor(numbers)[..n], values, 0);
    }

    method Append(j: nat, id: nat, rows: seq<Tuple>)
      requires Valid() && j < |tables| && IsActive(After(engine.history), id) && |rows| <= STANDARD_VECTOR_SIZE
      modifies tables[j], engine, engine.storage
      ensures Valid() && IsActive(After(engine.history), id)
      ensures var slots := NewSlots(|old(engine.storage.chains)|, |rows|);
        && engine.history == old(engine.history) + WriteEvents(id, slots, Somes(rows))
        && DataTable.Rows(tables[j].chunks) == old(DataTable.Rows(tables[j].chunks)) + slots
      ensures |engine.storage.chains| == |old(engine.storage.chains)| + |rows|
      ensures engine.StoryOf(id) == old(engine.StoryOf(id)) + Insertions(tables[j].table, rows)
    {
      Remembered();
      ghost var dbs, h, tableOf := States(|indexes|), engine.history, engine.storage.tableOf;
      engine.SlotsShow();
      tables[j].Append(id, rows);
      engine.SlotsShow();
      TableIsAlone(j);
      AfterAppend(tables[j], dbs, h, tableOf, id, rows);
    }

    /** The rows of a call are rows of the table. */
    lemma SlotsListed(t: DataTable.DataTable, numbers: seq<nat>)
      requires t.Valid() && t.DistinctRows(numbers)
      ensures AllDistinct(t.SlotsFor(numbers))
      ensures forall i :: 0 <= i < |numbers| ==> t.SlotsFor(numbers)[i] in DataTable.SlotsOf(t.engine.storage.tableOf, t.table)
    {
      t.SlotsDistinct(numbers);
    }

    /** The outcome of a delete or update of rows in the terms of the reference machine. */
    ghost function Expected(t: DataTable.DataTable, id: nat, numbers: seq<nat>): DataTable.Outcome
      requires numbers != [] && t.InOneChunk(numbers)
      reads this, engine, t
    {
      if t.Refuses(numbers[0]) then DataTable.Aborted
      else if NobodyElseWrote(engine.history, id, t.SlotsFor(numbers)) then DataTable.Done else DataTable.Conflict
    }

    lemma OutcomeIsExpected(j: nat, id: nat, numbers: seq<nat>)
      requires Valid() && j < |tables| && IsActive(After(engine.history), id) && numbers != [] && tables[j].InOneChunk(numbers)
      ensures tables[j].OutcomeOf(After(engine.history), id, numbers) == Expected(tables[j], id, numbers)
    {
      Open();
      NoRewritesIsClean(engine.history);
      tables[j].OutcomeExactly(id, numbers);
    }

    lemma IndexedOutcomeIsExpected(i: nat, id: nat, numbers: seq<nat>)
      requires Valid() && i < |indexes| && IsActive(After(engine.history), id) && numbers != [] && indexes[i].table.InOneChunk(numbers)
      ensures indexes[i].table.OutcomeOf(After(engine.history), id, numbers) == Expected(indexes[i].table, id, numbers)
    {
      Open();
      NoRewritesIsClean(engine.history);
      indexes[i].table.OutcomeExactly(id, numbers);
    }


    method Delete(j: nat, id: nat, numbers: seq<nat>) returns (outcome: DataTable.Outcome)
      requires Valid() && j < |tables| && IsActive(After(engine.history), id)
      requires numbers != [] && tables[j].DistinctRows(numbers) && AllLive(After(engine.history), tables[j].SlotsFor(numbers))
      modifies engine, engine.storage
      ensures Valid()
      ensures var s, slots := After(old(engine.history)), tables[j].SlotsFor(numbers);
        var n := tables[j].Reached(s, id, numbers);
        && outcome == tables[j].OutcomeOf(s, id, numbers) == old(Expected(tables[j], id, numbers))
        && engine.history == old(engine.history) + WriteEvents(id, slots[..n], Nones(n))
    {
      Remembered();
      OutcomeIsExpected(j, id, numbers);
      ghost var dbs, h, tableOf, slots := States(|indexes|), engine.history, engine.storage.tableOf, tables[j].SlotsFor(numbers);
      ghost var n := tables[j].Reached(After(h), id, numbers);
      outcome := tables[j].DeleteLive(id, numbers);
      TableIsAlone(j);
      AfterRows(tables[j], dbs, h, tableOf, id, numbers, n, Nones(n));
    }

    method Update(j: nat, id: nat, numbers: seq<nat>, columnIds: seq<nat>, updates: seq<seq<int>>) returns (outcome: DataTable.Outcome)
      requires Valid() && j < |tables| && IsActive(After(engine.history), id)
      requires numbers != [] && tables[j].DistinctRows(numbers) && AllLive(After(engine.history), tables[j].SlotsFor(numbers))
      requires |updates| == |columnIds| && forall c :: 0 <= c < |updates| ==> |updates[c]| == |numbers|
      requires forall i, c :: 0 <= i < |numbers| && 0 <= c < |columnIds| ==>
        columnIds[c] < |After(engine.history).cells[tables[j].SlotsFor(numbers)[i]].cur.value|
      modifies engine, engine.storage
      ensures Valid()
      ensures var s, slots := After(old(engine.history)), tables[j].SlotsFor(numbers);
        var n := tables[j].Reached(s, id, numbers);
        && outcome == tables[j].OutcomeOf(s, id, numbers) == old(Expected(tables[j], id, numbers))
        && engine.history == old(engine.history) + (if outcome == DataTable.Done then WriteEvents(id, slots, Updated(s, slots, columnIds, updates))
                                                    else WriteEvents(id, slots[..n], Contents(s, slots)[..n]))
    {
      Remembered();
      OutcomeIsExpected(j, id, numbers);
      ghost var dbs, h, tableOf, slots := States(|indexes|), engine.history, engine.storage.tableOf, tables[j].SlotsFor(numbers);
      outcome := tables[j].UpdateLive(id, numbers, columnIds, updates);
      TableIsAlone(j);
      AfterUpdated(tables[j], dbs, h, tableOf, id, numbers, Updated(After(h), slots, columnIds, updates), Contents(After(h), slots));
    }

    lemma AfterUpdated(t: DataTable.DataTable, dbs: seq<Db>, h: History, tableOf: seq<nat>, id: nat, numbers: seq<nat>,
                       updated: seq<Option<Tuple>>, contents: seq<Option<Tuple>>)
      requires OthersBefore(t.table, dbs, h, tableOf) && engine.Valid() && engine.storage.tableOf == tableOf
      requires t.engine == engine && t.Valid() && Guarded(t, After(h).cells) && IsActive(After(h), id)
      requires numbers != [] && t.DistinctRows(numbers) && |updated| == |contents| == |numbers|
      requires engine.history == h + if t.OutcomeOf(After(h), id, numbers) == DataTable.Done then WriteEvents(id, t.SlotsFor(numbers), updated)
        else WriteEvents(id, t.SlotsFor(numbers)[..t.Reached(After(h), id, numbers)], contents[..t.Reached(After(h), id, numbers)])
      requires Alone(t)
      ensures Valid()
    {
      var n, slots := t.Reached(After(h), id, numbers), t.SlotsFor(numbers);
      assert slots[..|slots|] == slots;
      AfterRows(t, dbs, h, tableOf, id, numbers, n, if t.OutcomeOf(After(h), id, numbers) == DataTable.Done then updated else contents[..n]);
    }

    // ----- the tables with an index -----

    lemma AfterUpdate(i: nat, numbers: seq<nat>, dbs: seq<Db>, h: History, tableOf: seq<nat>, id: nat, slots: seq<nat>, values: seq<Option<Tuple>>,
                      outcome: UT.UpdateOutcome)
      requires i < |indexes| && OthersBefore(indexes[i].table.table, dbs, h, tableOf) && engine.Valid() && engine.storage.tableOf == tableOf
      requires IsActive(After(h), id) && |values| == |slots| && UT.Good(indexes[i]) && Guarded(indexes[i].table, After(h).cells)
      requires numbers != [] && indexes[i].table.DistinctRows(numbers) && slots == indexes[i].table.SlotsFor(numbers)
      requires outcome.AllUpdated? ==> Accepted(After(h).cells, id, slots) == |slots|
      requires indexes[i].table.Refuses(numbers[0]) ==> outcome.Violation? || outcome.AssertionFailed?
      requires engine.history == h + UT.UpdateEvents(After(h), id, slots, values, outcome)
      ensures Valid()
    {
      var owner := indexes[i].table.table;
      SlotsListed(indexes[i].table, numbers);
      UpdateWrote(h, tableOf, owner, id, slots, values, outcome);
      var m := if outcome.Violation? || outcome.AssertionFailed? then 0 else Accepted(After(h).cells, id, slots);
      GuardedByRows(indexes[i].table, h, id, numbers, m, Written(After(h), slots, values, outcome)[..m]);
      AfterWrites(owner, dbs, h, tableOf, id, slots[..m], Written(After(h), slots, values, outcome)[..m], 0);
    }

    /** After an append to a table. */
    lemma AfterAppend(t: DataTable.DataTable, dbs: seq<Db>, h: History, tableOf: seq<nat>, id: nat, rows: seq<Tuple>)
      requires OthersBefore(t.table, dbs, h, tableOf) && engine.Valid() && IsActive(After(h), id)
      requires t.engine == engine && t.Valid() && (t.asserts ==> Spared(After(h).cells, DataTable.SlotsOf(tableOf, t.table)))
      requires engine.storage.tableOf == tableOf + Copies(t.table, |rows|)
      requires engine.history == h + WriteEvents(id, NewSlots(|tableOf|, |rows|), Somes(rows))
      requires Alone(t)
      ensures Valid()
    {
      var slots := NewSlots(|tableOf|, |rows|);
      AppendWrote(h, tableOf, t.table, id, slots, Somes(rows));
      GuardedByAppend(t, DataTable.SlotsOf(tableOf, t.table), h, id, slots, Somes(rows), tableOf);
      AfterWrites(t.table, dbs, h, tableOf, id, slots, Somes(rows), |rows|);
    }

    /** After an append that was refused. */
    lemma AfterRefusal(t: DataTable.DataTable, dbs: seq<Db>, h: History, tableOf: seq<nat>, id: nat)
      requires OthersBefore(t.table, dbs, h, tableOf) && engine.Valid() && IsActive(After(h), id)
      requires t.engine == engine && t.Valid() && (t.asserts ==> Spared(After(h).cells, DataTable.SlotsOf(tableOf, t.table)))
      requires engine.storage.tableOf == tableOf + [] && engine.history == h
      requires Alone(t)
      ensures Valid()
    {
      assert h + [] == h && tableOf + [] == tableOf;
      RowsWrote(h, tableOf, t.table, id, [], [], 0);
      AfterWrites(t.table, dbs, h, tableOf, id, [], [], 0);
    }

    lemma AfterAttempt(i: nat, dbs: seq<Db>, h: History, tableOf: seq<nat>, id: nat, rows: seq<Tuple>, ok: bool)
      requires i < |indexes| && OthersBefore(indexes[i].table.table, dbs, h, tableOf) && engine.Valid() && IsActive(After(h), id)
      requires UT.Good(indexes[i])
      requires indexes[i].table.asserts ==> Spared(After(h).cells, DataTable.SlotsOf(tableOf, indexes[i].table.table))
      requires engine.storage.tableOf == tableOf + if ok then Copies(indexes[i].table.table, |rows|) else []
      requires engine.history == h + if ok then WriteEvents(id, NewSlots(|tableOf|, |rows|), Somes(rows)) else []
      ensures Valid()
    {
      IndexedIsAlone(i);
      if ok {
        AfterAppend(indexes[i].table, dbs, h, tableOf, id, rows);
      } else {
        assert h + [] == h;
        AfterRefusal(indexes[i].table, dbs, h, tableOf, id);
      }
    }

    method AppendIndexed(i: nat, id: nat, rows: seq<Tuple>) returns (ok: bool)
      requires Valid() && i < |indexes| && IsActive(After(engine.history), id) && |rows| <= STANDARD_VECTOR_SIZE
      requires GoodKeys(UT.KeysOf(Somes(rows), indexes[i].columns), |indexes[i].columns|)
      modifies indexes[i], indexes[i].table, engine, engine.storage
      ensures Valid()
      ensures engine.history == old(engine.history) +
        if ok then WriteEvents(id, NewSlots(|old(engine.storage.chains)|, |rows|), Somes(rows)) else []
      ensures ok <==> Acceptable(old(indexes[i].table.SceneOf(id)), old(indexes[i].tree), {},
                                 UT.KeysOf(Somes(rows), indexes[i].columns), indexes[i].columns, indexes[i].allowNulls)
    {
      Remembered();
      ghost var dbs, h, tableOf := States(|indexes|), engine.history, engine.storage.tableOf;
      engine.SlotsShow();
      ok := UT.Append(indexes[i], id, rows);
      AfterAttempt(i, dbs, h, tableOf, id, rows, ok);
    }

    method DeleteIndexed(i: nat, id: nat, numbers: seq<nat>) returns (outcome: DataTable.Outcome)
      requires Valid() && i < |indexes| && IsActive(After(engine.history), id)
      requires numbers != [] && indexes[i].table.DistinctRows(numbers) && AllLive(After(engine.history), indexes[i].table.SlotsFor(numbers))
      modifies engine, engine.storage
      ensures Valid()
      ensures var s, slots := After(old(engine.history)), indexes[i].table.SlotsFor(numbers);
        var n := indexes[i].table.Reached(s, id, numbers);
        && outcome == indexes[i].table.OutcomeOf(s, id, numbers) == old(Expected(indexes[i].table, id, numbers))
        && engine.history == old(engine.history) + WriteEvents(id, slots[..n], Nones(n))
    {
      Remembered();
      IndexedOutcomeIsExpected(i, id, numbers);
      ghost var dbs, h, tableOf, slots := States(|indexes|), engine.history, engine.storage.tableOf, indexes[i].table.SlotsFor(numbers);
      ghost var n := indexes[i].table.Reached(After(h), id, numbers);
      outcome := UT.Delete(indexes[i], id, numbers);
      IndexedIsAlone(i);
      AfterRows(indexes[i].table, dbs, h, tableOf, id, numbers, n, Nones(n));
    }

    method UpdateIndexed(i: nat, id: nat, numbers: seq<nat>, columnIds: seq<nat>, updates: seq<seq<int>>, raw: seq<seq<int>>)
        returns (outcome: UT.UpdateOutcome)
      requires Valid() && i < |indexes| && IsActive(After(engine.history), id)
      requires numbers != [] && indexes[i].table.DistinctRows(numbers) && UT.BytesOf(raw, updates)
      requires UT.Updatable(After(engine.history), indexes[i].table.SlotsFor(numbers), columnIds, updates, indexes[i].columns)
      modifies indexes[i], engine, engine.storage
      ensures Valid()
      ensures var s, slots := After(old(engine.history)), indexes[i].table.SlotsFor(numbers);
        && engine.history == old(engine.history) + UT.UpdateEvents(s, id, slots, Updated(s, slots, columnIds, updates), outcome)
        && (outcome == UT.AssertionFailed <==> outcome != UT.Violation && indexes[i].table.Refuses(numbers[0]))
        && (outcome == UT.Violation <==>
              (exists c :: c in indexes[i].columns && c in columnIds)
              && !old(UT.UpdateAccepted(indexes[i], id, numbers, Updated(s, slots, columnIds, updates),
                                        UT.RawKeys(s, slots, columnIds, raw, indexes[i].columns))))
        && (outcome == UT.AllUpdated ==> old(Expected(indexes[i].table, id, numbers)) == DataTable.Done)
        && (outcome == UT.WriteConflict ==> old(Expected(indexes[i].table, id, numbers)) == DataTable.Conflict)
    {
      Remembered();
      IndexedOutcomeIsExpected(i, id, numbers);
      ghost var dbs, h, tableOf, slots := States(|indexes|), engine.history, engine.storage.tableOf, indexes[i].table.SlotsFor(numbers);
      ghost var values := Updated(After(h), slots, columnIds, updates);
      var keyed;
      outcome, keyed := UT.UpdateRows(indexes[i], id, numbers, columnIds, updates, raw);
      AfterUpdate(i, numbers, dbs, h, tableOf, id, slots, values, outcome);
    }

    // ----- scans -----

    lemma TableIsScannable(j: nat)
      requires Valid() && j < |tables|
      ensures tables[j].Valid() && tables[j].engine == engine && Clean(engine.history)
      ensures DataTable.Rows(tables[j].chunks) == DataTable.SlotsOf(engine.storage.tableOf, tables[j].table)
      ensures SpecAfter(engine.history) == SpecRun(engine.history)
    {
      Open();
      NoRewritesIsClean(engine.history);
      SpecAfterIs(engine.history);
    }

    method Scan(j: nat, id: nat) returns (found: seq<DataTable.Found>)
      requires Valid() && j < |tables| && IsActive(After(engine.history), id)
      ensures Valid() && id in SpecAfter(engine.history).views
      ensures multiset(found) == DataTable.SnapshotRows(SpecAfter(engine.history).views[id], tables[j].SceneOf(id),
                                                        DataTable.Range(0, |DataTable.Rows(tables[j].chunks)|))
    {
      TableIsScannable(j);
      assert forall o :: o in Parts() ==> allocated(o);
      found := tables[j].ScanAll(id);
    }

    lemma SlotsShow()
      requires Valid()
      ensures Numbered() && engine.Valid()
      ensures forall slot: nat :: slot in After(engine.history).cells <==> slot < |engine.storage.chains|
    {
      Open();
      engine.SlotsShow();
    }

    lemma TransactionsShow()
      requires Valid()
      ensures Numbered() && engine.ShowsTransactions(After(engine.history))
    {
      Open();
      engine.TransactionsShow();
    }

    lemma TwoTablesFit(j: nat, k: nat, rows: seq<Tuple>, rows': seq<Tuple>)
      requires Valid() && j < |tables| && k < |tables| && j != k && After(engine.history).clock + 2 < TRANSACTION_ID_START
      ensures tables[j] != tables[k]
      ensures var h, first, id := engine.history, |engine.storage.chains|, After(engine.history).nextId;
        var slots, slots' := NewSlots(first, |rows|), NewSlots(first + |rows|, |rows'|);
        var filled := Filling(h, id, slots, rows, slots', rows');
        && CanFill(h, slots, rows, slots', rows') && IsActive(After(filled), id + 1) && id + 1 in SpecAfter(filled).views
        && SpecAfter(filled).views[id + 1] == FilledView(SpecAfter(h).db, slots, rows, slots', rows')
    {
      SlotsShow();
      var first := |engine.storage.chains|;
      Filled(engine.history, NewSlots(first, |rows|), rows, NewSlots(first + |rows|, |rows'|), rows');
    }

    /** One transaction fills two tables and commits, and another one starts. */
    method Fill(j: nat, k: nat, rows: seq<Tuple>, rows': seq<Tuple>) returns (reader: nat)
      requires Valid() && j < |tables| && k < |tables| && j != k && After(engine.history).clock + 2 < TRANSACTION_ID_START
      requires |rows| <= STANDARD_VECTOR_SIZE && |rows'| <= STANDARD_VECTOR_SIZE
      modifies tables[j], tables[k], engine, engine.storage
      ensures Valid() && reader == After(old(engine.history)).nextId + 1 && IsActive(After(engine.history), reader)
      ensures var first := |old(engine.storage.chains)|;
        var slots, slots' := NewSlots(first, |rows|), NewSlots(first + |rows|, |rows'|);
        && DataTable.Rows(tables[j].chunks) == old(DataTable.Rows(tables[j].chunks)) + slots
        && DataTable.Rows(tables[k].chunks) == old(DataTable.Rows(tables[k].chunks)) + slots'
        && engine.history == Filling(old(engine.history), After(old(engine.history)).nextId, slots, rows, slots', rows')
        && reader in SpecAfter(engine.history).views
        && SpecAfter(engine.history).views[reader] == FilledView(SpecAfter(old(engine.history)).db, slots, rows, slots', rows')
    {
      TwoTablesFit(j, k, rows, rows');
      reader := FillAndCommit(j, k, rows, rows');
    }

    method FillAndCommit(j: nat, k: nat, rows: seq<Tuple>, rows': seq<Tuple>) returns (reader: nat)
      requires Valid() && j < |tables| && k < |tables| && tables[j] != tables[k]
      requires |rows| <= STANDARD_VECTOR_SIZE && |rows'| <= STANDARD_VECTOR_SIZE
      requires CanFill(engine.history, NewSlots(|engine.storage.chains|, |rows|), rows, NewSlots(|engine.storage.chains| + |rows|, |rows'|), rows')
      modifies tables[j], tables[k], engine, engine.storage
      ensures Valid()
      ensures var h, first := old(engine.history), |old(engine.storage.chains)|;
        var slots, slots', writer := NewSlots(first, |rows|), NewSlots(first + |rows|, |rows'|), After(h).nextId;
        && DataTable.Rows(tables[j].chunks) == old(DataTable.Rows(tables[j].chunks)) + slots
        && DataTable.Rows(tables[k].chunks) == old(DataTable.Rows(tables[k].chunks)) + slots'
        && engine.history == Filling(h, writer, slots, rows, slots', rows') && reader == writer + 1
    {
      var writer := FillBoth(j, k, rows, rows');
      reader := CommitAndStart(writer);
    }

    method CommitAndStart(writer: nat) returns (reader: nat)
      requires Valid() && Enabled(After(engine.history), Event.Commit(writer)) && Enabled(After(engine.history + [Event.Commit(writer)]), Begin)
      modifies engine, engine.storage
      ensures Valid() && engine.history == old(engine.history) + [Event.Commit(writer)] + [Begin]
      ensures reader == After(old(engine.history) + [Event.Commit(writer)]).nextId
    {
      var log := Commit(writer);
      var started;
      started, reader := Start();
    }

    method FillBoth(j: nat, k: nat, rows: seq<Tuple>, rows': seq<Tuple>) returns (writer: nat)
      requires Valid() && j < |tables| && k < |tables| && tables[j] != tables[k]
      requires |rows| <= STANDARD_VECTOR_SIZE && |rows'| <= STANDARD_VECTOR_SIZE
      requires Enabled(After(engine.history), Begin) && IsActive(After(engine.history + [Begin]), After(engine.history).nextId)
      modifies tables[j], tables[k], engine, engine.storage
      ensures Valid() && writer == After(old(engine.history)).nextId
      ensures var first := |old(engine.storage.chains)|;
        var slots, slots' := NewSlots(first, |rows|), NewSlots(first + |rows|, |rows'|);
        && DataTable.Rows(tables[j].chunks) == old(DataTable.Rows(tables[j].chunks)) + slots
        && DataTable.Rows(tables[k].chunks) == old(DataTable.Rows(tables[k].chunks)) + slots'
        && engine.history == old(engine.history) + [Begin] + WriteEvents(writer, slots, Somes(rows)) + WriteEvents(writer, slots', Somes(rows'))
    {
      var started;
      started, writer := Start();
      Append(j, writer, rows);
      Append(k, writer, rows');
    }

    /** One transaction fills two tables and commits, another starts and scans the first of them: it gets exactly what was
        committed before and the rows of the first. */
    method FillAndScan(j: nat, k: nat, rows: seq<Tuple>, rows': seq<Tuple>) returns (found: seq<DataTable.Found>)
      requires Valid() && j < |tables| && k < |tables| && j != k && After(engine.history).clock + 2 < TRANSACTION_ID_START
      requires |rows| <= STANDARD_VECTOR_SIZE && |rows'| <= STANDARD_VECTOR_SIZE
      modifies tables[j], tables[k], engine, engine.storage
      ensures Valid()
      ensures var first, reader := |old(engine.storage.chains)|, After(old(engine.history)).nextId + 1;
        var slots, slots' := NewSlots(first, |rows|), NewSlots(first + |rows|, |rows'|);
        && DataTable.Rows(tables[j].chunks) == old(DataTable.Rows(tables[j].chunks)) + slots
        && DataTable.Rows(tables[k].chunks) == old(DataTable.Rows(tables[k].chunks)) + slots'
        && IsActive(After(engine.history), reader)
        && multiset(found) == DataTable.SnapshotRows(FilledView(SpecAfter(old(engine.history)).db, slots, rows, slots', rows'),
                                                     tables[j].SceneOf(reader), DataTable.Range(0, |DataTable.Rows(tables[j].chunks)|))
      ensures FindsAll(multiset(found), rows)
    {
      ghost var db, first, before := SpecAfter(engine.history).db, |engine.storage.chains|, DataTable.Rows(tables[j].chunks);
      var reader := Fill(j, k, rows, rows');
      found := ScanFilled(j, reader, rows, rows', db, first, before);
    }

    method ScanFilled(j: nat, reader: nat, rows: seq<Tuple>, ghost rows': seq<Tuple>, ghost db: map<nat, Tuple>, ghost first: nat, ghost before: seq<nat>)
        returns (found: seq<DataTable.Found>)
      requires Valid() && j < |tables| && IsActive(After(engine.history), reader) && reader in SpecAfter(engine.history).views
      requires SpecAfter(engine.history).views[reader] == FilledView(db, NewSlots(first, |rows|), rows, NewSlots(first + |rows|, |rows'|), rows')
      requires DataTable.Rows(tables[j].chunks) == before + NewSlots(first, |rows|)
      ensures Valid() && FindsAll(multiset(found), rows)
      ensures multiset(found)
        == DataTable.SnapshotRows(FilledView(db, NewSlots(first, |rows|), rows, NewSlots(first + |rows|, |rows'|), rows'),
                                  tables[j].SceneOf(reader), DataTable.Range(0, |DataTable.Rows(tables[j].chunks)|))
    {
      found := Scan(j, reader);
      AllFilledAreScanned(db, first, rows, rows', tables[j].SceneOf(reader), before);
    }

    /** In a build with assertions every scan gives out the right identifiers, at any time. */
    lemma IdentifiersAreRight(id: nat)
      requires Valid() && IsActive(After(engine.history), id)
      ensures forall j :: 0 <= j < |tables| && tables[j].asserts ==> RightIds(tables[j].SceneOf(id))
      ensures forall i :: 0 <= i < |indexes| && indexes[i].table.asserts ==> RightIds(indexes[i].table.SceneOf(id))
    {
      Open();
      forall j | 0 <= j < |tables| && tables[j].asserts ensures RightIds(tables[j].SceneOf(id)) {
        SparedIdsAreRight(tables[j].SceneOf(id));
      }
      forall i | 0 <= i < |indexes| && indexes[i].table.asserts ensures RightIds(indexes[i].table.SceneOf(id)) {
        SparedIdsAreRight(indexes[i].table.SceneOf(id));
      }
    }

    /** No two rows of an indexed table have the same key, neither as they stand nor as committed. */
    lemma RowsAreUnique(i: nat, m: nat, n: nat)
      requires Valid() && i < |indexes| && m != n
      requires m < |DataTable.Rows(indexes[i].table.chunks)| && n < |DataTable.Rows(indexes[i].table.chunks)|
      ensures var rows, cells := DataTable.Rows(indexes[i].table.chunks), After(engine.history).cells;
        && rows[m] in cells && rows[n] in cells
        && Apart(KeyOf(cells[rows[m]].cur, indexes[i].columns), KeyOf(cells[rows[n]].cur, indexes[i].columns))
        && Apart(KeyOf(CommittedValue(cells[rows[m]]), indexes[i].columns), KeyOf(CommittedValue(cells[rows[n]]), indexes[i].columns))
    {
      Open();
      UT.RowsAreUnique(indexes[i], m, n);
    }
  }
}
