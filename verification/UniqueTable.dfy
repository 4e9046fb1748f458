/** A table with one unique index: rows get in only after their keys did.

  Every operation is proved to be a step, or two, of the system in which keys are unique. */
module UniqueTable {
  import opened Versions
  import opened Mvcc
  import opened TableStorage
  import opened Engine
  import opened Uniqueness
  import opened IndexTree
  import opened UniqueIndex
  import DataTable

  // ----- the index as a set of keys and slots -----

  ghost function Nodes(t: Tree, rows: seq<nat>): set<IndexEntry> {
    set e | e in Entries(t) && e.row < |rows| :: IndexEntry(e.key, rows[e.row])
  }

  /** The row numbers of a call and their slots. */
  ghost predicate Correspond(ignored: set<nat>, slots: seq<nat>, rows: seq<nat>) {
    forall n: nat :: n < |rows| ==> (n in ignored <==> rows[n] in slots)
  }

  /** The check of the tree is the check against the set. */
  lemma FreeAgrees(s: DataTable.Scene, state: State<nat, Tuple>, t: Tree, ignored: set<nat>, slots: seq<nat>, key: Key, columns: seq<nat>)
    requires state.cells == s.cells && RowsKnown(t, |s.rows|) && Correspond(ignored, slots, s.rows)
    ensures KeyFree(s, t, ignored, key, columns) <==> Free(Db(state, Nodes(t, s.rows), SlotSet(s.rows)), s.reader, slots, key, columns)
  {
    var db := Db(state, Nodes(t, s.rows), SlotSet(s.rows));
    if KeyFree(s, t, ignored, key, columns) {
      forall e | e in db.index && e.key == key ensures !Blocks(CellAt(state.cells, e.row), s.reader, e.row in slots, key, columns) {
        var x :| x in Entries(t) && x.row < |s.rows| && e == IndexEntry(x.key, s.rows[x.row]);
        assert !NodeBlocks(s, x, ignored, key, columns);
      }
    }
    if Free(db, s.reader, slots, key, columns) {
      forall x | x in Entries(t) && x.key == key ensures !NodeBlocks(s, x, ignored, key, columns) {
        assert IndexEntry(x.key, s.rows[x.row]) in db.index;
      }
    }
  }

  /** The nodes of a batch are the new entries of the set. */
  lemma {:induction false} BatchHas(keys: seq<Option<Key>>, numbers: seq<nat>, i: nat)
    requires i < |keys| == |numbers| && keys[i].Some?
    ensures IndexEntry(keys[i].value, numbers[i]) in BatchEntries(keys, numbers)
  {
    var n := |keys| - 1;
    if i < n { BatchHas(keys[..n], numbers[..n], i); }
  }

  /** The keys of the new values of a call. */
  function KeysOf(values: seq<Option<Tuple>>, columns: seq<nat>): (keys: seq<Option<Key>>)
    ensures |keys| == |values| && forall i :: 0 <= i < |keys| ==> keys[i] == KeyOf(values[i], columns)
  {
    seq(|values|, i requires 0 <= i < |values| => KeyOf(values[i], columns))
  }

  /** The entry is one of the new ones. */
  ghost predicate IsNew(e: IndexEntry, rows: seq<nat>, numbers: seq<nat>, slots: seq<nat>, values: seq<Option<Tuple>>, columns: seq<nat>)
    requires |numbers| == |slots| == |values|
  {
    e.row < |rows| && exists i :: 0 <= i < |numbers| && numbers[i] == e.row && rows[e.row] == slots[i] && KeyOf(values[i], columns) == Some(e.key)
  }

  lemma BatchIsNew(rows: seq<nat>, numbers: seq<nat>, slots: seq<nat>, values: seq<Option<Tuple>>, columns: seq<nat>, e: IndexEntry)
    requires |numbers| == |slots| == |values|
    requires forall i :: 0 <= i < |numbers| ==> numbers[i] < |rows| && rows[numbers[i]] == slots[i]
    ensures e in BatchEntries(KeysOf(values, columns), numbers) ==> IsNew(e, rows, numbers, slots, values, columns)
  {
    var keys := KeysOf(values, columns);
    if e in BatchEntries(keys, numbers) {
      BatchKeys(keys, numbers, e);
      var i :| 0 <= i < |keys| && keys[i] == Some(e.key) && numbers[i] == e.row;
      assert KeyOf(values[i], columns) == Some(e.key);
    }
  }

  lemma NewNodes(t': Tree, rows': seq<nat>, numbers: seq<nat>, slots: seq<nat>, values: seq<Option<Tuple>>, columns: seq<nat>)
    requires |numbers| == |slots| == |values| && BatchEntries(KeysOf(values, columns), numbers) <= Entries(t')
    requires forall i :: 0 <= i < |numbers| ==> numbers[i] < |rows'| && rows'[numbers[i]] == slots[i]
    ensures NewEntries(slots, values, columns) <= Nodes(t', rows')
  {
    forall x | x in NewEntries(slots, values, columns) ensures x in Nodes(t', rows') {
      var i :| 0 <= i < |slots| && KeyOf(values[i], columns).Some? && x == IndexEntry(KeyOf(values[i], columns).value, slots[i]);
      BatchHas(KeysOf(values, columns), numbers, i);
    }
  }

  lemma OldNodes(t: Tree, t': Tree, rows: seq<nat>, rows': seq<nat>)
    requires rows <= rows' && Entries(t) <= Entries(t')
    ensures Nodes(t, rows) <= Nodes(t', rows')
  {
    forall x | x in Nodes(t, rows) ensures x in Nodes(t', rows') {
      var e :| e in Entries(t) && e.row < |rows| && x == IndexEntry(e.key, rows[e.row]);
      assert e in Entries(t') && rows'[e.row] == rows[e.row];
    }
  }

  lemma OnlyNewNodes(t: Tree, t': Tree, rows: seq<nat>, rows': seq<nat>, batch: multiset<IndexEntry>, numbers: seq<nat>, slots: seq<nat>,
                     values: seq<Option<Tuple>>, columns: seq<nat>)
    requires |numbers| == |slots| == |values| && rows <= rows' && RowsKnown(t, |rows|) && Entries(t') == Entries(t) + batch
    requires forall e :: e in batch ==> IsNew(e, rows', numbers, slots, values, columns)
    ensures Nodes(t', rows') <= Nodes(t, rows) + NewEntries(slots, values, columns)
    ensures RowsKnown(t', |rows'|)
  {
    forall x | x in Nodes(t', rows') ensures x in Nodes(t, rows) + NewEntries(slots, values, columns) {
      var e :| e in Entries(t') && e.row < |rows'| && x == IndexEntry(e.key, rows'[e.row]);
      OldOrNew(t, rows, rows', batch, numbers, slots, values, columns, e);
    }
  }

  lemma OldOrNew(t: Tree, rows: seq<nat>, rows': seq<nat>, batch: multiset<IndexEntry>, numbers: seq<nat>, slots: seq<nat>,
                 values: seq<Option<Tuple>>, columns: seq<nat>, e: IndexEntry)
    requires |numbers| == |slots| == |values| && rows <= rows' && RowsKnown(t, |rows|) && e.row < |rows'|
    requires e in Entries(t) || e in batch
    requires e in batch ==> IsNew(e, rows', numbers, slots, values, columns)
    ensures IndexEntry(e.key, rows'[e.row]) in Nodes(t, rows) || IndexEntry(e.key, rows'[e.row]) in NewEntries(slots, values, columns)
  {
    if e in batch {
      NewIsEntry(rows', numbers, slots, values, columns, e);
    } else {
      assert rows'[e.row] == rows[e.row];
    }
  }

  lemma NewIsEntry(rows: seq<nat>, numbers: seq<nat>, slots: seq<nat>, values: seq<Option<Tuple>>, columns: seq<nat>, e: IndexEntry)
    requires |numbers| == |slots| == |values| && IsNew(e, rows, numbers, slots, values, columns)
    ensures IndexEntry(e.key, rows[e.row]) in NewEntries(slots, values, columns)
  {
    var i :| 0 <= i < |numbers| && numbers[i] == e.row && rows[e.row] == slots[i] && KeyOf(values[i], columns) == Some(e.key);
    assert IndexEntry(e.key, rows[e.row]) == IndexEntry(KeyOf(values[i], columns).value, slots[i]);
  }

  lemma NodesGrow(t: Tree, t': Tree, rows: seq<nat>, rows': seq<nat>, numbers: seq<nat>, slots: seq<nat>,
                  values: seq<Option<Tuple>>, columns: seq<nat>)
    requires |numbers| == |slots| == |values| && rows <= rows' && RowsKnown(t, |rows|)
    requires Entries(t') == Entries(t) + BatchEntries(KeysOf(values, columns), numbers)
    requires forall i :: 0 <= i < |numbers| ==> numbers[i] < |rows'| && rows'[numbers[i]] == slots[i]
    ensures Nodes(t', rows') == Nodes(t, rows) + NewEntries(slots, values, columns)
    ensures RowsKnown(t', |rows'|)
  {
    var batch := BatchEntries(KeysOf(values, columns), numbers);
    forall e | e in batch ensures IsNew(e, rows', numbers, slots, values, columns) {
      BatchIsNew(rows', numbers, slots, values, columns, e);
    }
    OldNodes(t, t', rows, rows');
    NewNodes(t', rows', numbers, slots, values, columns);
    OnlyNewNodes(t, t', rows, rows', batch, numbers, slots, values, columns);
  }

  // ----- the writes of a call -----

  lemma {:induction false} WritesAreWriteAll(h: History, id: nat, slots: seq<nat>, values: seq<Option<Tuple>>)
    requires |slots| == |values|
    ensures After(h + WriteEvents(id, slots, values)) == WriteAll(After(h), id, slots, values)
  {
    if slots == [] {
      assert h + WriteEvents(id, slots, values) == h;
    } else {
      var n := |slots| - 1;
      WritesAreWriteAll(h, id, slots[..n], values[..n]);
      WriteEventsStep(h, id, slots, values, n);
      assert slots[..n + 1] == slots && values[..n + 1] == values;
      AfterWrite(h + WriteEvents(id, slots[..n], values[..n]), id, slots[n], values[n]);
    }
  }

  lemma MayWriteIffAccepted(s: State<nat, Tuple>, id: nat, slots: seq<nat>)
    requires IsActive(s, id) && AllDistinct(slots)
    ensures MayWrite(s, id, slots) <==> Accepted(s.cells, id, slots) == |slots|
    ensures MayWrite(s, id, slots[..Accepted(s.cells, id, slots)])
  {
    AcceptedSplits(s.cells, id, slots);
  }

  // ----- the operations -----

  ghost predicate Sound(index: UniqueIndex)
    reads index, index.table, index.table.engine, index.table.engine.storage
  {
    index.Valid() && index.table.Valid() && RowsKnown(index.tree, |DataTable.Rows(index.table.chunks)|)
  }

  /** The state of the rows, of the index, and which rows are the table's. */
  ghost function StateOf(index: UniqueIndex): Db
    reads index, index.table, index.table.engine
  {
    var rows := DataTable.Rows(index.table.chunks);
    Db(After(index.table.engine.history), Nodes(index.tree, rows), SlotSet(rows))
  }

  /** The table and its index are sound, and the keys of its rows are kept apart. */
  ghost predicate Good(index: UniqueIndex)
    reads index, index.table, index.table.engine, index.table.engine.storage
  {
    Sound(index) && Unique(StateOf(index), index.columns)
  }

  /** No two rows of the table have the same key, neither as they stand nor as committed. */
  lemma RowsAreUnique(index: UniqueIndex, m: nat, n: nat)
    requires Good(index) && m < |DataTable.Rows(index.table.chunks)| && n < |DataTable.Rows(index.table.chunks)| && m != n
    ensures var rows, cells := DataTable.Rows(index.table.chunks), After(index.table.engine.history).cells;
      && rows[m] in cells && rows[n] in cells
      && Apart(KeyOf(cells[rows[m]].cur, index.columns), KeyOf(cells[rows[n]].cur, index.columns))
      && Apart(KeyOf(CommittedValue(cells[rows[m]]), index.columns), KeyOf(CommittedValue(cells[rows[n]]), index.columns))
  {
    var rows := DataTable.Rows(index.table.chunks);
    DataTable.SlotsListed(index.table.engine.storage.tableOf, index.table.table);
    assert rows[m] in rows && rows[n] in rows;
    UniqueRows(StateOf(index), index.columns, rows[m], rows[n]);
  }

  /** A new index over an empty table. */
  lemma NewIndexIsGood(index: UniqueIndex)
    requires index.Valid() && index.tree == Leaf && index.table.Valid() && DataTable.Rows(index.table.chunks) == []
    ensures Good(index)
  {
    AfterInv(index.table.engine.history);
    NothingIsUnique(After(index.table.engine.history), Nodes(index.tree, []), index.columns);
    assert SlotSet([]) == {};
  }

  lemma StepKeepsGood(index: UniqueIndex, db: Db, step: Step)
    requires !step.Again? && Sound(index) && Unique(db, index.columns) && StateOf(index) == Next(db, step, index.columns)
    ensures Good(index)
  {
    StaysUnique(db, step, index.columns);
  }

  lemma AppendAdmits(index: UniqueIndex, id: nat, rows: seq<Tuple>, slots: seq<nat>)
    requires Sound(index) && IsActive(After(index.table.engine.history), id)
    requires slots == NewSlots(|index.table.engine.storage.chains|, |rows|)
    requires GoodKeys(KeysOf(Somes(rows), index.columns), |index.columns|)
    ensures Acceptable(index.table.SceneOf(id), index.tree, {}, KeysOf(Somes(rows), index.columns), index.columns, index.allowNulls) ==>
      Admitted(StateOf(index), index.table.engine.ReaderOf(id), slots, Somes(rows), index.columns)
    ensures MayWrite(After(index.table.engine.history), id, slots) && Takes(StateOf(index), slots)
  {
    var s, keys := index.table.SceneOf(id), KeysOf(Somes(rows), index.columns);
    DataTable.SlotsListed(index.table.engine.storage.tableOf, index.table.table);
    index.table.engine.SlotsShow();
    assert forall n: nat :: n < |s.rows| ==> s.rows[n] in s.rows;
    assert Correspond({}, slots, s.rows);
    forall i | 0 <= i < |keys| && keys[i].Some?
      ensures KeyAcceptable(s, index.tree, {}, keys[i], index.columns, index.allowNulls) <==> Free(StateOf(index), s.reader, slots, keys[i].value, index.columns)
    {
      FreeAgrees(s, After(index.table.engine.history), index.tree, {}, slots, keys[i].value, index.columns);
    }
  }

  lemma AppendIsStep(index: UniqueIndex, id: nat, rows: seq<Tuple>, slots: seq<nat>)
    requires Sound(index) && IsActive(After(index.table.engine.history), id)
    requires slots == NewSlots(|index.table.engine.storage.chains|, |rows|)
    requires GoodKeys(KeysOf(Somes(rows), index.columns), |index.columns|)
    ensures Acceptable(index.table.SceneOf(id), index.tree, {}, KeysOf(Somes(rows), index.columns), index.columns, index.allowNulls) ==>
      Next(StateOf(index), Keyed(id, slots, Somes(rows)), index.columns)
        == Db(WriteAll(After(index.table.engine.history), id, slots, Somes(rows)),
              StateOf(index).index + NewEntries(slots, Somes(rows), index.columns), StateOf(index).own + SlotSet(slots))
  {
    AppendAdmits(index, id, rows, slots);
  }

  /** Brings the keys of a batch into the index, or leaves it as it was. */
  method AddBatch(index: UniqueIndex, id: nat, keys: seq<Option<Key>>, numbers: seq<nat>, ignored: set<nat>,
                  ghost rows': seq<nat>, ghost slots: seq<nat>, ghost values: seq<Option<Tuple>>) returns (ok: bool)
    requires index.Valid() && index.table.Valid() && IsActive(After(index.table.engine.history), id)
    requires RowsKnown(index.tree, |DataTable.Rows(index.table.chunks)|) && DataTable.Rows(index.table.chunks) <= rows'
    requires |numbers| == |slots| == |values| && keys == KeysOf(values, index.columns) && GoodKeys(keys, |index.columns|)
    requires forall i :: 0 <= i < |numbers| ==> numbers[i] < |rows'| && rows'[numbers[i]] == slots[i]
    modifies index
    ensures index.Valid()
    ensures ok <==> Acceptable(index.table.SceneOf(id), old(index.tree), ignored, keys, index.columns, index.allowNulls)
    ensures !ok ==> index.tree == old(index.tree)
    ensures ok ==>
      && RowsKnown(index.tree, |rows'|)
      && Nodes(index.tree, rows') == Nodes(old(index.tree), DataTable.Rows(index.table.chunks)) + NewEntries(slots, values, index.columns)
  {
    ghost var before := index.tree;
    var added;
    ghost var trees;
    ok, added, trees := index.AddEntries(id, keys, numbers, ignored);
    if ok {
      NodesGrow(before, index.tree, DataTable.Rows(index.table.chunks), rows', numbers, slots, values, index.columns);
    }
  }

  /** Appends rows whose keys are in the index. */
  method AppendAdmitted(index: UniqueIndex, id: nat, rows: seq<Tuple>, ghost slots: seq<nat>)
    requires index.Valid() && index.table.Valid() && IsActive(After(index.table.engine.history), id)
    requires |rows| <= STANDARD_VECTOR_SIZE && slots == NewSlots(|index.table.engine.storage.chains|, |rows|)
    requires RowsKnown(index.tree, |DataTable.Rows(index.table.chunks) + slots|)
    modifies index.table`chunks, index.table.engine`activeTransactions, index.table.engine`history, index.table.engine`stories
    modifies index.table.engine.storage
    ensures Sound(index)
    ensures StateOf(index) == Db(WriteAll(After(old(index.table.engine.history)), id, slots, Somes(rows)),
                                 Nodes(index.tree, old(DataTable.Rows(index.table.chunks)) + slots),
                                 SlotSet(old(DataTable.Rows(index.table.chunks))) + SlotSet(slots))
    ensures index.table.engine.storage.tableOf == old(index.table.engine.storage.tableOf) + Copies(index.table.table, |rows|)
    ensures index.table.engine.history == old(index.table.engine.history) + WriteEvents(id, slots, Somes(rows))
  {
    ghost var h, was := index.table.engine.history, DataTable.Rows(index.table.chunks);
    index.table.Append(id, rows);
    WritesAreWriteAll(h, id, slots, Somes(rows));
    assert SlotSet(was + slots) == SlotSet(was) + SlotSet(slots);
  }

  /** Appends rows if all their keys get into the index. */
  method Append(index: UniqueIndex, id: nat, rows: seq<Tuple>) returns (ok: bool)
    requires Good(index) && IsActive(After(index.table.engine.history), id) && |rows| <= STANDARD_VECTOR_SIZE
    requires GoodKeys(KeysOf(Somes(rows), index.columns), |index.columns|)
    modifies index, index.table`chunks, index.table.engine`activeTransactions, index.table.engine`history, index.table.engine`stories
    modifies index.table.engine.storage
    ensures Good(index)
    ensures ok <==> Acceptable(old(index.table.SceneOf(id)), old(index.tree), {}, KeysOf(Somes(rows), index.columns), index.columns, index.allowNulls)
    ensures !ok ==> StateOf(index) == old(StateOf(index)) && index.table.engine.history == old(index.table.engine.history)
    ensures index.table.engine.storage.tableOf == old(index.table.engine.storage.tableOf) + if ok then Copies(index.table.table, |rows|) else []
    ensures ok ==>
      index.table.engine.history
        == old(index.table.engine.history) + WriteEvents(id, NewSlots(|old(index.table.engine.storage.chains)|, |rows|), Somes(rows))
    ensures ok ==>
      StateOf(index) == Next(old(StateOf(index)), Keyed(id, NewSlots(|old(index.table.engine.storage.chains)|, |rows|), Somes(rows)), index.columns)
  {
    var table := index.table;
    ghost var slots := NewSlots(|table.engine.storage.chains|, |rows|);
    ghost var was := DataTable.Rows(table.chunks);
    DataTable.RowCount(table.chunks);
    var last := table.chunks[|table.chunks| - 1];
    var numbers := NewSlots(last.start + |last.slots|, |rows|);
    ghost var db := StateOf(index);
    AppendIsStep(index, id, rows, slots);
    ok := AddBatch(index, id, KeysOf(Somes(rows), index.columns), numbers, {}, was + slots, slots, Somes(rows));
    if ok {
      AppendAdmitted(index, id, rows, slots);
      StepKeepsGood(index, db, Keyed(id, slots, Somes(rows)));
    }
  }

  /** The rows of a call belong to the table. */
  lemma SlotsAreOwn(index: UniqueIndex, numbers: seq<nat>)
    requires Sound(index) && index.table.DistinctRows(numbers)
    ensures Owns(StateOf(index), index.table.SlotsFor(numbers)) && AllDistinct(index.table.SlotsFor(numbers))
  {
    index.table.SlotsDistinct(numbers);
  }

  /** A delete, complete or stopped at a conflict, is a step, and it needs no look at the index. */
  lemma DeleteIsStep(db: Db, h: History, id: nat, slots: seq<nat>, n: nat, columns: seq<nat>)
    requires db.state == After(h) && IsActive(db.state, id) && AllDistinct(slots) && Owns(db, slots)
    requires n <= Accepted(db.state.cells, id, slots)
    ensures db.(state := After(h + WriteEvents(id, slots[..n], Nones(n)))) == Next(db, Unkeyed(id, slots[..n], Nones(n)), columns)
  {
    AcceptedSplits(db.state.cells, id, slots);
    WritesAreWriteAll(h, id, slots[..n], Nones(n));
  }

  /** Deletes live rows of one chunk, until the first conflict. */
  method Delete(index: UniqueIndex, id: nat, numbers: seq<nat>) returns (outcome: DataTable.Outcome)
    requires Good(index) && IsActive(After(index.table.engine.history), id)
    requires numbers != [] && index.table.DistinctRows(numbers) && AllLive(After(index.table.engine.history), index.table.SlotsFor(numbers))
    modifies index.table.engine`activeTransactions, index.table.engine`history, index.table.engine`stories, index.table.engine.storage
    ensures Good(index) && index.table.engine.storage.tableOf == old(index.table.engine.storage.tableOf)
    ensures var s, slots := After(old(index.table.engine.history)), index.table.SlotsFor(numbers);
      var n := index.table.Reached(s, id, numbers);
      && outcome == index.table.OutcomeOf(s, id, numbers)
      && index.table.engine.history == old(index.table.engine.history) + WriteEvents(id, slots[..n], Nones(n))
      && StateOf(index) == Next(old(StateOf(index)), Unkeyed(id, slots[..n], Nones(n)), index.columns)
  {
    ghost var db, h, slots := StateOf(index), index.table.engine.history, index.table.SlotsFor(numbers);
    ghost var n := index.table.Reached(db.state, id, numbers);
    SlotsAreOwn(index, numbers);
    DeleteIsStep(db, h, id, slots, n, index.columns);
    outcome := index.table.DeleteLive(id, numbers);
    StepKeepsGood(index, db, Unkeyed(id, slots[..n], Nones(n)));
  }

  /** Starts, commits, rollbacks and queries are steps. */
  lemma PlainIsStep(db: Db, h: History, event: Event<nat, Tuple>, columns: seq<nat>)
    requires db.state == After(h) && !Writes(event)
    ensures db.(state := After(h + [event])) == Next(db, Plain(event), columns)
  {
    AfterStep(h, event);
  }

  /** What a table and its index need to remember while something else happens in the engine. */
  ghost predicate Untouched(index: UniqueIndex, db: Db)
    reads index, index.table, index.table.engine, index.table.engine.storage
  {
    Sound(index) && Unique(db, index.columns) && StateOf(index) == db.(state := After(index.table.engine.history))
  }

  /** Starts, commits, rollbacks and queries leave the keys apart. */
  lemma EventKeepsGood(index: UniqueIndex, db: Db, h: History, event: Event<nat, Tuple>)
    requires Untouched(index, db) && db.state == After(h) && !Writes(event) && index.table.engine.history == h + [event]
    ensures Good(index) && StateOf(index) == Next(db, Plain(event), index.columns)
  {
    PlainIsStep(db, h, event, index.columns);
    StepKeepsGood(index, db, Plain(event));
  }

  /** Whatever is written to the rows of other tables leaves the keys apart. */
  lemma ForeignKeepsGood(index: UniqueIndex, db: Db, h: History, id: nat, slots: seq<nat>, values: seq<Option<Tuple>>)
    requires Untouched(index, db) && db.state == After(h) && |slots| == |values| && MayWrite(db.state, id, slots) && OwnsNone(db, slots)
    requires index.table.engine.history == h + WriteEvents(id, slots, values)
    ensures Good(index) && StateOf(index) == Next(db, Foreign(id, slots, values), index.columns)
  {
    WritesAreWriteAll(h, id, slots, values);
    StepKeepsGood(index, db, Foreign(id, slots, values));
  }

  /** Commits; the keys stay apart, whatever the transaction has written. */
  method Commit(index: UniqueIndex, id: nat)
    requires Good(index) && Enabled(After(index.table.engine.history), Event.Commit(id))
    modifies index.table.engine, index.table.engine.storage
    ensures Good(index) && index.table.engine.history == old(index.table.engine.history) + [Event.Commit(id)]
    ensures StateOf(index) == Next(old(StateOf(index)), Plain(Event.Commit(id)), index.columns)
  {
    ghost var db, h := StateOf(index), index.table.engine.history;
    var log := index.table.engine.Commit(id);
    EventKeepsGood(index, db, h, Event.Commit(id));
  }

  /** Rolls back; the keys stay apart, with the rows that come back. */
  method Rollback(index: UniqueIndex, id: nat)
    requires Good(index) && IsActive(After(index.table.engine.history), id)
    modifies index.table.engine, index.table.engine.storage
    ensures Good(index) && index.table.engine.history == old(index.table.engine.history) + [Event.Rollback(id)]
    ensures StateOf(index) == Next(old(StateOf(index)), Plain(Event.Rollback(id)), index.columns)
  {
    ghost var db, h := StateOf(index), index.table.engine.history;
    index.table.engine.Rollback(id);
    EventKeepsGood(index, db, h, Event.Rollback(id));
  }

  // ----- updates -----

  /** The position of a column among the updated ones. */
  method Find(columnIds: seq<nat>, column: nat) returns (position: Option<nat>)
    ensures position.None? ==> column !in columnIds
    ensures position.Some? ==> position.value < |columnIds| && columnIds[position.value] == column && column !in columnIds[..position.value]
  {
    var i := 0;
    while i < |columnIds|
      invariant 0 <= i <= |columnIds| && column !in columnIds[..i]
    {
      if columnIds[i] == column {
        return Some(i);
      }
      i := i + 1;
    }
    return None;
  }

  /** The old rows are long enough for the updated and for the key columns. */
  ghost predicate WideEnough(s: State<nat, Tuple>, slots: seq<nat>, columnIds: seq<nat>) {
    forall i, j :: 0 <= i < |slots| && 0 <= j < |columnIds| ==>
      slots[i] in s.cells && s.cells[slots[i]].cur.Some? && columnIds[j] < |s.cells[slots[i]].cur.value|
  }

  /** The new value of a column of a row. */
  lemma NewValue(row: Tuple, columnIds: seq<nat>, updates: seq<seq<int>>, i: nat, column: nat, position: Option<nat>)
    requires |updates| == |columnIds| && AllDistinct(columnIds) && column < |row|
    requires forall j :: 0 <= j < |updates| ==> i < |updates[j]|
    requires position.None? ==> column !in columnIds
    requires position.Some? ==> position.value < |columnIds| && columnIds[position.value] == column
    ensures Assigned(row, columnIds, RowValues(updates, i))[column] == if position.None? then row[column] else updates[position.value][i]
  {
    AssignedHolds(row, columnIds, RowValues(updates, i), column);
  }

  /** The arguments of an update fit the rows and the index. */
  ghost predicate Updatable(s: State<nat, Tuple>, slots: seq<nat>, columnIds: seq<nat>, updates: seq<seq<int>>, columns: seq<nat>) {
    && AllLive(s, slots) && AllDistinct(columnIds)
    && |updates| == |columnIds| && (forall j :: 0 <= j < |updates| ==> |updates[j]| == |slots|)
    && WideEnough(s, slots, columnIds) && WideEnough(s, slots, columns)
  }

  ghost function NewKey(s: State<nat, Tuple>, slots: seq<nat>, columnIds: seq<nat>, updates: seq<seq<int>>, columns: seq<nat>, i: nat): Key
    requires Updatable(s, slots, columnIds, updates, columns) && i < |slots|
  {
    Project(Updated(s, slots, columnIds, updates)[i].value, columns)
  }

  /** What the vectors of an update hold: its values, and anything in the place of a NULL. */
  ghost predicate BytesOf(raw: seq<seq<int>>, updates: seq<seq<int>>) {
    && |raw| == |updates| && (forall j :: 0 <= j < |raw| ==> |raw[j]| == |updates[j]|)
    && (forall j, i :: 0 <= j < |raw| && 0 <= i < |raw[j]| && updates[j][i] != NULL_VALUE ==> raw[j][i] == updates[j][i])
  }

  /** The new keys as they are copied out of the vectors. */
  ghost function RawKeys(s: State<nat, Tuple>, slots: seq<nat>, columnIds: seq<nat>, raw: seq<seq<int>>, columns: seq<nat>): (keys: seq<Key>)
    requires Updatable(s, slots, columnIds, raw, columns)
    ensures |keys| == |slots| && forall i :: 0 <= i < |keys| ==> |keys[i]| == |columns|
  {
    seq(|slots|, i requires 0 <= i < |slots| => NewKey(s, slots, columnIds, raw, columns, i))
  }

  /** Keys without a NULL are copied as they are. */
  ghost predicate Copied(keys: seq<Key>, values: seq<Option<Tuple>>, columns: seq<nat>) {
    && |keys| == |values| && (forall i :: 0 <= i < |values| ==> values[i].Some?)
    && forall i :: 0 <= i < |values| ==> NULL_VALUE !in Project(values[i].value, columns) ==> keys[i] == Project(values[i].value, columns)
  }

  lemma RawKeysAreCopied(s: State<nat, Tuple>, slots: seq<nat>, columnIds: seq<nat>, updates: seq<seq<int>>, raw: seq<seq<int>>, columns: seq<nat>)
    requires Updatable(s, slots, columnIds, updates, columns) && BytesOf(raw, updates)
    ensures Copied(RawKeys(s, slots, columnIds, raw, columns), Updated(s, slots, columnIds, updates), columns)
  {
    forall i | 0 <= i < |slots| && NULL_VALUE !in NewKey(s, slots, columnIds, updates, columns, i)
      ensures NewKey(s, slots, columnIds, raw, columns, i) == NewKey(s, slots, columnIds, updates, columns, i)
    {
      var row, key := s.cells[slots[i]].cur.value, NewKey(s, slots, columnIds, updates, columns, i);
      forall c | 0 <= c < |columns| ensures NewKey(s, slots, columnIds, raw, columns, i)[c] == key[c] {
        assert key[c] in key;
        AssignedHolds(row, columnIds, RowValues(updates, i), columns[c]);
        AssignedHolds(row, columnIds, RowValues(raw, i), columns[c]);
      }
    }
  }

  /** Collects the values of one key column, and tells which of them are NULL. */
  method SerializeColumn(index: UniqueIndex, slots: seq<nat>, columnIds: seq<nat>, updates: seq<seq<int>>, raw: seq<seq<int>>, c: nat)
      returns (values: seq<int>, nulls: seq<bool>)
    requires index.table.engine.Valid() && c < |index.columns| && BytesOf(raw, updates)
    requires Updatable(After(index.table.engine.history), slots, columnIds, updates, index.columns)
    ensures |values| == |nulls| == |slots|
    ensures var copies := RawKeys(After(index.table.engine.history), slots, columnIds, raw, index.columns);
      forall i :: 0 <= i < |slots| ==> values[i] == copies[i][c]
    ensures var keys := RawKeys(After(index.table.engine.history), slots, columnIds, updates, index.columns);
      forall i :: 0 <= i < |slots| ==> nulls[i] == (keys[i][c] == NULL_VALUE)
  {
    ghost var s := After(index.table.engine.history);
    var column := index.columns[c];
    var position := Find(columnIds, column);
    values, nulls := [], [];
    var i := 0;
    while i < |slots|
      invariant 0 <= i <= |slots| && |values| == |nulls| == i
      invariant forall k :: 0 <= k < i ==> values[k] == NewKey(s, slots, columnIds, raw, index.columns, k)[c]
      invariant forall k :: 0 <= k < i ==> nulls[k] == (NewKey(s, slots, columnIds, updates, index.columns, k)[c] == NULL_VALUE)
    {
      index.table.engine.SlotShows(slots[i]);
      NewValue(s.cells[slots[i]].cur.value, columnIds, updates, i, column, position);
      NewValue(s.cells[slots[i]].cur.value, columnIds, raw, i, column, position);
      if position.None? {
        var value := index.table.engine.storage.columns[slots[i]][column];
        values, nulls := values + [value], nulls + [value == NULL_VALUE];
      } else {
        values, nulls := values + [raw[position.value][i]], nulls + [updates[position.value][i] == NULL_VALUE];
      }
      i := i + 1;
    }
  }

  /** The first columns of the keys, and whether a NULL is among them. */
  ghost predicate Collected(targets: seq<Key>, hasNull: seq<bool>, copies: seq<Key>, keys: seq<Key>, c: nat) {
    && |targets| == |hasNull| == |copies| == |keys|
    && (forall i :: 0 <= i < |copies| ==> |copies[i]| == |keys[i]| && c <= |copies[i]|)
    && (forall i :: 0 <= i < |copies| ==> targets[i] == copies[i][..c])
    && (forall i :: 0 <= i < |keys| ==> hasNull[i] == (NULL_VALUE in keys[i][..c]))
  }

  lemma CollectedOneMore(targets: seq<Key>, hasNull: seq<bool>, copies: seq<Key>, keys: seq<Key>, c: nat, targets': seq<Key>, hasNull': seq<bool>)
    requires Collected(targets, hasNull, copies, keys, c) && |targets'| == |hasNull'| == |copies|
    requires forall i :: 0 <= i < |keys| ==> c < |keys[i]|
    requires forall i :: 0 <= i < |keys| ==> targets'[i] == targets[i] + [copies[i][c]]
    requires forall i :: 0 <= i < |keys| ==> hasNull'[i] == (hasNull[i] || keys[i][c] == NULL_VALUE)
    ensures Collected(targets', hasNull', copies, keys, c + 1)
  {
    forall i | 0 <= i < |keys| ensures targets'[i] == copies[i][..c + 1] && hasNull'[i] == (NULL_VALUE in keys[i][..c + 1]) {
      assert copies[i][..c + 1] == copies[i][..c] + [copies[i][c]];
      assert keys[i][..c + 1] == keys[i][..c] + [keys[i][c]];
    }
  }

  lemma CollectedAll(targets: seq<Key>, hasNull: seq<bool>, copies: seq<Key>, keys: seq<Key>, c: nat)
    requires Collected(targets, hasNull, copies, keys, c) && forall i :: 0 <= i < |keys| ==> |keys[i]| == c
    ensures targets == copies && forall i :: 0 <= i < |keys| ==> hasNull[i] == (NULL_VALUE in keys[i])
  {
    forall i | 0 <= i < |keys| ensures copies[i][..c] == copies[i] && keys[i][..c] == keys[i] {
    }
  }

  /** Collects the new keys of the updated rows: updated columns from the update, the others from the base table. */
  method SerializeUpdate(index: UniqueIndex, slots: seq<nat>, columnIds: seq<nat>, updates: seq<seq<int>>, raw: seq<seq<int>>)
      returns (targets: seq<Key>, hasNull: seq<bool>)
    requires index.table.engine.Valid() && BytesOf(raw, updates)
    requires Updatable(After(index.table.engine.history), slots, columnIds, updates, index.columns)
    ensures targets == RawKeys(After(index.table.engine.history), slots, columnIds, raw, index.columns) && |hasNull| == |slots|
    ensures var keys := RawKeys(After(index.table.engine.history), slots, columnIds, updates, index.columns);
      forall i :: 0 <= i < |slots| ==> hasNull[i] == (NULL_VALUE in keys[i])
  {
    ghost var copies := RawKeys(After(index.table.engine.history), slots, columnIds, raw, index.columns);
    ghost var keys := RawKeys(After(index.table.engine.history), slots, columnIds, updates, index.columns);
    targets, hasNull := seq(|slots|, i => []), seq(|slots|, i => false);
    var c := 0;
    while c < |index.columns|
      invariant 0 <= c <= |index.columns| && Collected(targets, hasNull, copies, keys, c)
    {
      ghost var before, before' := targets, hasNull;
      var values, nulls := SerializeColumn(index, slots, columnIds, updates, raw, c);
      targets := seq(|slots|, i requires 0 <= i < |slots| == |targets| == |values| => targets[i] + [values[i]]);
      hasNull := seq(|slots|, i requires 0 <= i < |slots| == |hasNull| == |nulls| => hasNull[i] || nulls[i]);
      CollectedOneMore(before, before', copies, keys, c, targets, hasNull);
      c := c + 1;
    }
    CollectedAll(targets, hasNull, copies, keys, |index.columns|);
  }

  /** Compares every two keys of a batch. */
  method HasDuplicates(targets: seq<Key>) returns (duplicates: bool)
    ensures duplicates <==> exists i, j :: 0 <= i < j < |targets| && targets[i] == targets[j]
  {
    var i := 0;
    while i < |targets|
      invariant 0 <= i <= |targets|
      invariant forall k, j :: 0 <= k < i && k < j < |targets| ==> targets[k] != targets[j]
    {
      var j := i + 1;
      while j < |targets|
        invariant i < j <= |targets|
        invariant forall m :: i < m < j ==> targets[i] != targets[m]
      {
        CompareOrders(targets[i], targets[j]);
        if Compare(targets[i], targets[j]) == 0 {
          return true;
        }
        j := j + 1;
      }
      i := i + 1;
    }
    return false;
  }

  ghost function NumberSet(numbers: seq<nat>): set<nat> {
    set i | 0 <= i < |numbers| :: numbers[i]
  }

  function AsKeys(targets: seq<Key>, hasNull: seq<bool>): (keys: seq<Option<Key>>)
    requires |targets| == |hasNull|
    ensures |keys| == |targets| && forall i :: 0 <= i < |keys| ==> keys[i] == if hasNull[i] then None else Some(targets[i])
  {
    seq(|targets|, i requires 0 <= i < |targets| => if hasNull[i] then None else Some(targets[i]))
  }

  /** The new keys of an update are all different, as they were copied, and all accepted. */
  ghost predicate UpdateAccepted(index: UniqueIndex, id: nat, numbers: seq<nat>, values: seq<Option<Tuple>>, copies: seq<Key>)
    requires IsActive(After(index.table.engine.history), id)
    reads index, index.table, index.table.engine
  {
    && (forall i, j :: 0 <= i < j < |copies| ==> copies[i] != copies[j])
    && Acceptable(index.table.SceneOf(id), index.tree, NumberSet(numbers), KeysOf(values, index.columns), index.columns, index.allowNulls)
  }

  /** No two of the new keys are equal: two NULLs are not. */
  ghost predicate NewKeysDiffer(values: seq<Option<Tuple>>, columns: seq<nat>) {
    forall i, j :: 0 <= i < j < |values| && KeyOf(values[i], columns).Some? ==> KeyOf(values[i], columns) != KeyOf(values[j], columns)
  }

  /** An update without equal keys is refused for equal bytes exactly when the vectors hold, in the place of a NULL, what
    makes the key of the row look like that of another one. */
  lemma NullsClashExactly(copies: seq<Key>, values: seq<Option<Tuple>>, columns: seq<nat>)
    requires Copied(copies, values, columns)
    ensures (forall i, j :: 0 <= i < j < |copies| ==> copies[i] != copies[j])
      <==> (NewKeysDiffer(values, columns)
        && forall i, j :: 0 <= i < |copies| && 0 <= j < |copies| && i != j && KeyOf(values[i], columns).None? ==> copies[i] != copies[j])
  {
    if forall i, j :: 0 <= i < j < |copies| ==> copies[i] != copies[j] {
      forall i, j | 0 <= i < |copies| && 0 <= j < |copies| && i != j ensures copies[i] != copies[j] {
        assert copies[if i < j then i else j] != copies[if i < j then j else i];
      }
      assert NewKeysDiffer(values, columns);
    } else {
      var i, j :| 0 <= i < j < |copies| && copies[i] == copies[j];
      if KeyOf(values[i], columns).Some? && KeyOf(values[j], columns).Some? {
        assert KeyOf(values[i], columns) == KeyOf(values[j], columns);
      }
    }
  }

  lemma UpdateAdmits(index: UniqueIndex, id: nat, numbers: seq<nat>, values: seq<Option<Tuple>>, copies: seq<Key>)
    requires Sound(index) && IsActive(After(index.table.engine.history), id) && index.table.DistinctRows(numbers)
    requires |values| == |numbers| && Copied(copies, values, index.columns)
    requires UpdateAccepted(index, id, numbers, values, copies)
    ensures Admitted(StateOf(index), index.table.engine.ReaderOf(id), index.table.SlotsFor(numbers), values, index.columns)
  {
    var s, keys, slots := index.table.SceneOf(id), KeysOf(values, index.columns), index.table.SlotsFor(numbers);
    UpdateCorresponds(index, numbers);
    forall i | 0 <= i < |keys| && keys[i].Some? ensures Free(StateOf(index), s.reader, slots, keys[i].value, index.columns) {
      assert KeyAcceptable(s, index.tree, NumberSet(numbers), keys[i], index.columns, index.allowNulls);
      FreeAgrees(s, After(index.table.engine.history), index.tree, NumberSet(numbers), slots, keys[i].value, index.columns);
    }
    NullsClashExactly(copies, values, index.columns);
  }

  lemma UpdateCorresponds(index: UniqueIndex, numbers: seq<nat>)
    requires Sound(index) && index.table.DistinctRows(numbers)
    ensures Correspond(NumberSet(numbers), index.table.SlotsFor(numbers), DataTable.Rows(index.table.chunks))
    ensures AllDistinct(index.table.SlotsFor(numbers))
  {
    var rows, slots := DataTable.Rows(index.table.chunks), index.table.SlotsFor(numbers);
    DataTable.SlotsListed(index.table.engine.storage.tableOf, index.table.table);
    index.table.SlotsDistinct(numbers);
    forall n: nat | n < |rows| ensures n in NumberSet(numbers) <==> rows[n] in slots {
      if n in NumberSet(numbers) {
        var i :| 0 <= i < |numbers| && numbers[i] == n;
        assert slots[i] == rows[n];
      }
      if rows[n] in slots {
        var i :| 0 <= i < |slots| && slots[i] == rows[n];
        SameRow(rows, numbers[i], n);
      }
    }
  }

  lemma SameRow(rows: seq<nat>, m: nat, n: nat)
    requires m < |rows| && n < |rows| && rows[m] == rows[n]
    requires forall i, j :: 0 <= i < j < |rows| ==> rows[i] < rows[j]
    ensures m == n
  {
  }

  lemma DistinctTargets(targets: seq<Key>, hasNull: seq<bool>, values: seq<Option<Tuple>>, columns: seq<nat>)
    requires Copied(targets, values, columns) && |hasNull| == |values|
    requires forall i :: 0 <= i < |values| ==> hasNull[i] == (NULL_VALUE in Project(values[i].value, columns))
    ensures AsKeys(targets, hasNull) == KeysOf(values, columns)
    ensures (forall i, j :: 0 <= i < j < |targets| ==> targets[i] != targets[j]) ==> GoodKeys(AsKeys(targets, hasNull), |columns|)
  {
  }

  /** Brings the new keys of an update into the index, or leaves it as it was. */
  method AddKeys(index: UniqueIndex, id: nat, numbers: seq<nat>, targets: seq<Key>, hasNull: seq<bool>, ghost values: seq<Option<Tuple>>)
      returns (ok: bool)
    requires Sound(index) && IsActive(After(index.table.engine.history), id) && index.table.DistinctRows(numbers)
    requires |hasNull| == |values| == |numbers| && Copied(targets, values, index.columns)
    requires forall i :: 0 <= i < |values| ==> hasNull[i] == (NULL_VALUE in Project(values[i].value, index.columns))
    modifies index
    ensures Sound(index) && (ok <==> old(UpdateAccepted(index, id, numbers, values, targets)))
    ensures StateOf(index) == old(StateOf(index)).(index := old(StateOf(index)).index +
      if ok then NewEntries(index.table.SlotsFor(numbers), values, index.columns) else {})
  {
    DistinctTargets(targets, hasNull, values, index.columns);
    var duplicates := HasDuplicates(targets);
    if duplicates {
      return false;
    }
    var ignored := set n | n in numbers;
    assert ignored == NumberSet(numbers);
    ok := AddBatch(index, id, AsKeys(targets, hasNull), numbers, ignored, DataTable.Rows(index.table.chunks), index.table.SlotsFor(numbers), values);
  }

  /** An update of other columns leaves the keys alone. */
  lemma OtherColumnsKeepKeys(s: State<nat, Tuple>, slots: seq<nat>, columnIds: seq<nat>, updates: seq<seq<int>>, columns: seq<nat>)
    requires Updatable(s, slots, columnIds, updates, columns) && forall c :: c in columns ==> c !in columnIds
    ensures KeepsKeys(s, slots, Updated(s, slots, columnIds, updates), columns)
  {
    var values := Updated(s, slots, columnIds, updates);
    forall i | 0 <= i < |slots| ensures KeyOf(values[i], columns) == KeyOf(CellAt(s.cells, slots[i]).cur, columns) {
      var row := s.cells[slots[i]].cur.value;
      forall c | 0 <= c < |columns| ensures Project(values[i].value, columns)[c] == Project(row, columns)[c] {
        AssignedHolds(row, columnIds, RowValues(updates, i), columns[c]);
      }
      assert Project(values[i].value, columns) == Project(row, columns);
    }
  }

  /** The index after an update, and what it asks of the new values. */
  ghost predicate Asks(db: Db, index: set<IndexEntry>, id: nat, slots: seq<nat>, values: seq<Option<Tuple>>, keyed: bool, columns: seq<nat>) {
    && IsActive(db.state, id) && AllDistinct(slots) && |values| == |slots| && Owns(db, slots)
    && if keyed then Admitted(db, ReaderFor(db.state, id), slots, values, columns) && index == db.index + NewEntries(slots, values, columns)
       else KeepsKeys(db.state, slots, values, columns) && index == db.index
  }

  /** An update that meets no conflict is one step of the system. */
  lemma UpdateGoesThrough(db: Db, index: set<IndexEntry>, h: History, id: nat, slots: seq<nat>, values: seq<Option<Tuple>>, keyed: bool, columns: seq<nat>)
    requires db.state == After(h) && Asks(db, index, id, slots, values, keyed, columns) && Accepted(db.state.cells, id, slots) == |slots|
    ensures Db(After(h + WriteEvents(id, slots, values)), index, db.own)
      == Next(db, if keyed then Keyed(id, slots, values) else Unkeyed(id, slots, values), columns)
  {
    MayWriteIffAccepted(db.state, id, slots);
    assert db.own + SlotSet(slots) == db.own;
    WritesAreWriteAll(h, id, slots, values);
  }

  lemma AdmittedOnly(db: Db, index: set<IndexEntry>, id: nat, slots: seq<nat>, values: seq<Option<Tuple>>, columns: seq<nat>)
    requires Asks(db, index, id, slots, values, true, columns) && Accepted(db.state.cells, id, slots) < |slots|
    ensures Next(db, Keyed(id, slots, values), columns) == db.(index := index)
  {
    MayWriteIffAccepted(db.state, id, slots);
  }

  /** One that stops at a conflict is one step that touches the rows before, after one that brings in the keys. */
  lemma UpdateStops(db: Db, index: set<IndexEntry>, h: History, id: nat, slots: seq<nat>, values: seq<Option<Tuple>>, keyed: bool, columns: seq<nat>)
    requires db.state == After(h) && Asks(db, index, id, slots, values, keyed, columns)
    ensures var n := Accepted(db.state.cells, id, slots);
      n < |slots| ==>
        Db(After(h + WriteEvents(id, slots[..n], Contents(db.state, slots)[..n])), index, db.own)
          == Next(if keyed then Next(db, Keyed(id, slots, values), columns) else db,
                  Unkeyed(id, slots[..n], Contents(db.state, slots)[..n]), columns)
  {
    var n := Accepted(db.state.cells, id, slots);
    if n < |slots| {
      MayWriteIffAccepted(db.state, id, slots);
      if keyed { AdmittedOnly(db, index, id, slots, values, columns); }
      TouchedOnly(db.(index := index), h, id, slots[..n], Contents(db.state, slots)[..n], columns);
    }
  }

  lemma TouchedOnly(db: Db, h: History, id: nat, slots: seq<nat>, values: seq<Option<Tuple>>, columns: seq<nat>)
    requires db.state == After(h) && |slots| == |values| && MayWrite(db.state, id, slots) && Owns(db, slots)
    requires KeepsKeys(db.state, slots, values, columns)
    ensures db.(state := After(h + WriteEvents(id, slots, values))) == Next(db, Unkeyed(id, slots, values), columns)
  {
    WritesAreWriteAll(h, id, slots, values);
  }

  datatype UpdateOutcome = AllUpdated | WriteConflict | Violation | AssertionFailed

  ghost function UpdateResult(db: Db, id: nat, slots: seq<nat>, values: seq<Option<Tuple>>, keyed: bool, outcome: UpdateOutcome, columns: seq<nat>): Db
    requires |values| == |slots|
  {
    var n := Accepted(db.state.cells, id, slots);
    match outcome
    case AllUpdated => Next(db, if keyed then Keyed(id, slots, values) else Unkeyed(id, slots, values), columns)
    case WriteConflict =>
      Next(if keyed then Next(db, Keyed(id, slots, values), columns) else db,
           Unkeyed(id, slots[..n], Contents(db.state, slots)[..n]), columns)
    case Violation => db
    case AssertionFailed => if keyed then Next(db, KeysOnly(id, slots, values), columns) else db
  }

  /** What an update will amount to, seen before it begins. */
  lemma UpdateIsSteps(index: UniqueIndex, id: nat, numbers: seq<nat>, columnIds: seq<nat>, updates: seq<seq<int>>, slots: seq<nat>,
                      values: seq<Option<Tuple>>, copies: seq<Key>, keyed: bool)
    requires Sound(index) && IsActive(After(index.table.engine.history), id)
    requires index.table.DistinctRows(numbers) && slots == index.table.SlotsFor(numbers)
    requires Updatable(After(index.table.engine.history), slots, columnIds, updates, index.columns)
    requires values == Updated(After(index.table.engine.history), slots, columnIds, updates)
    requires Copied(copies, values, index.columns)
    requires keyed <==> exists c :: c in index.columns && c in columnIds
    ensures keyed ==> UpdateAccepted(index, id, numbers, values, copies) ==>
      Planned(StateOf(index), index.table.engine.history, id, slots, values, keyed, index.columns)
    ensures !keyed ==> Planned(StateOf(index), index.table.engine.history, id, slots, values, keyed, index.columns)
  {
    UpdateCorresponds(index, numbers);
    SlotsAreOwn(index, numbers);
    var db, h := StateOf(index), index.table.engine.history;
    if keyed {
      if UpdateAccepted(index, id, numbers, values, copies) {
        UpdateAdmits(index, id, numbers, values, copies);
        PlannedSteps(db, db.index + NewEntries(slots, values, index.columns), h, id, slots, values, keyed, index.columns);
      }
    } else {
      OtherColumnsKeepKeys(db.state, slots, columnIds, updates, index.columns);
      PlannedSteps(db, db.index, h, id, slots, values, keyed, index.columns);
    }
  }

  /** The results of an update that goes through and of one that stops at a conflict. */
  ghost predicate Planned(db: Db, h: History, id: nat, slots: seq<nat>, values: seq<Option<Tuple>>, keyed: bool, columns: seq<nat>)
    requires |values| == |slots|
  {
    var n, index := Accepted(db.state.cells, id, slots), db.index + if keyed then NewEntries(slots, values, columns) else {};
    && (n == |slots| ==>
          Db(After(h + WriteEvents(id, slots, values)), index, db.own) == UpdateResult(db, id, slots, values, keyed, AllUpdated, columns))
    && (n < |slots| ==>
          Db(After(h + WriteEvents(id, slots[..n], Contents(db.state, slots)[..n])), index, db.own)
            == UpdateResult(db, id, slots, values, keyed, WriteConflict, columns))
    && Db(After(h), index, db.own) == UpdateResult(db, id, slots, values, keyed, AssertionFailed, columns)
  }

  lemma UpdateKeepsUnique(db: Db, id: nat, slots: seq<nat>, values: seq<Option<Tuple>>, keyed: bool, outcome: UpdateOutcome, columns: seq<nat>)
    requires Unique(db, columns) && |values| == |slots|
    ensures Unique(UpdateResult(db, id, slots, values, keyed, outcome, columns), columns)
  {
    var n := Accepted(db.state.cells, id, slots);
    var first := if keyed then Next(db, Keyed(id, slots, values), columns) else db;
    StaysUnique(db, Keyed(id, slots, values), columns);
    StaysUnique(db, Unkeyed(id, slots, values), columns);
    StaysUnique(first, Unkeyed(id, slots[..n], Contents(db.state, slots)[..n]), columns);
    StaysUnique(db, KeysOnly(id, slots, values), columns);
  }

  lemma PlannedSteps(db: Db, index: set<IndexEntry>, h: History, id: nat, slots: seq<nat>, values: seq<Option<Tuple>>, keyed: bool, columns: seq<nat>)
    requires db.state == After(h) && Asks(db, index, id, slots, values, keyed, columns)
    ensures Planned(db, h, id, slots, values, keyed, columns)
  {
    if Accepted(db.state.cells, id, slots) == |slots| { UpdateGoesThrough(db, index, h, id, slots, values, keyed, columns); }
    UpdateStops(db, index, h, id, slots, values, keyed, columns);
  }

  /** Brings the new keys into the index if a key column is updated. */
  method KeysFirst(index: UniqueIndex, id: nat, numbers: seq<nat>, columnIds: seq<nat>, updates: seq<seq<int>>, raw: seq<seq<int>>,
                   slots: seq<nat>, ghost values: seq<Option<Tuple>>) returns (ok: bool, keyed: bool)
    requires Sound(index) && IsActive(After(index.table.engine.history), id) && BytesOf(raw, updates)
    requires index.table.DistinctRows(numbers) && slots == index.table.SlotsFor(numbers)
    requires Updatable(After(index.table.engine.history), slots, columnIds, updates, index.columns)
    requires values == Updated(After(index.table.engine.history), slots, columnIds, updates)
    modifies index
    ensures Sound(index) && (keyed <==> exists c :: c in index.columns && c in columnIds)
    ensures ok <==> (keyed ==> old(UpdateAccepted(index, id, numbers, values, RawKeys(After(index.table.engine.history), slots, columnIds, raw, index.columns))))
    ensures StateOf(index) == if ok
      then old(StateOf(index)).(index := old(StateOf(index)).index + (if keyed then NewEntries(slots, values, index.columns) else {}))
      else old(StateOf(index))
    ensures ok ==> old(Planned(StateOf(index), index.table.engine.history, id, slots, values, keyed, index.columns))
  {
    keyed := exists c :: c in index.columns && c in columnIds;
    RawKeysAreCopied(After(index.table.engine.history), slots, columnIds, updates, raw, index.columns);
    UpdateIsSteps(index, id, numbers, columnIds, updates, slots, values,
                  RawKeys(After(index.table.engine.history), slots, columnIds, raw, index.columns), keyed);
    ok := true;
    if keyed {
      ok := UpdateKeys(index, id, numbers, columnIds, updates, raw, slots, values);
    }
  }

  /** Updates rows of one chunk; the keys first if a key column is updated. */
  method UpdateRows(index: UniqueIndex, id: nat, numbers: seq<nat>, columnIds: seq<nat>, updates: seq<seq<int>>, raw: seq<seq<int>>)
      returns (outcome: UpdateOutcome, keyed: bool)
    requires Good(index) && IsActive(After(index.table.engine.history), id)
    requires numbers != [] && index.table.DistinctRows(numbers) && BytesOf(raw, updates)
    requires Updatable(After(index.table.engine.history), index.table.SlotsFor(numbers), columnIds, updates, index.columns)
    modifies index, index.table.engine`activeTransactions, index.table.engine`history, index.table.engine`stories, index.table.engine.storage
    ensures Good(index) && index.table.engine.storage.tableOf == old(index.table.engine.storage.tableOf)
    ensures keyed <==> exists c :: c in index.columns && c in columnIds
    ensures var s, slots := After(old(index.table.engine.history)), index.table.SlotsFor(numbers);
      var values, n := Updated(s, slots, columnIds, updates), Accepted(s.cells, id, slots);
      && (outcome == Violation <==> keyed && !old(UpdateAccepted(index, id, numbers, values, RawKeys(s, slots, columnIds, raw, index.columns))))
      && (outcome == AllUpdated ==> n == |slots|) && (outcome == WriteConflict ==> n < |slots|)
      && (outcome == AssertionFailed <==> outcome != Violation && index.table.Refuses(numbers[0]))
      && StateOf(index) == UpdateResult(old(StateOf(index)), id, slots, values, keyed, outcome, index.columns)
      && index.table.engine.history == old(index.table.engine.history) + UpdateEvents(s, id, slots, values, outcome)
  {
    ghost var db, h := StateOf(index), index.table.engine.history;
    var found, slots := index.table.FindSlots(numbers);
    ghost var values := Updated(db.state, slots, columnIds, updates);
    var ok;
    ok, keyed := KeysFirst(index, id, numbers, columnIds, updates, raw, slots, values);
    assert h + [] == h;
    outcome := UpdateBase(index, id, numbers, columnIds, updates, ok);
    UpdateEnds(index, db, h, id, slots, values, keyed, outcome);
  }

  /** Updates the rows themselves, unless a key was refused. */
  method UpdateBase(index: UniqueIndex, id: nat, numbers: seq<nat>, columnIds: seq<nat>, updates: seq<seq<int>>, ok: bool)
      returns (outcome: UpdateOutcome)
    requires Sound(index) && IsActive(After(index.table.engine.history), id)
    requires numbers != [] && index.table.DistinctRows(numbers)
    requires Updatable(After(index.table.engine.history), index.table.SlotsFor(numbers), columnIds, updates, index.columns)
    modifies index.table.engine`activeTransactions, index.table.engine`history, index.table.engine`stories, index.table.engine.storage
    ensures Sound(index) && index.table.engine.storage.tableOf == old(index.table.engine.storage.tableOf)
    ensures StateOf(index) == old(StateOf(index)).(state := After(index.table.engine.history))
    ensures var s, slots := After(old(index.table.engine.history)), index.table.SlotsFor(numbers);
      var values, n := Updated(s, slots, columnIds, updates), Accepted(s.cells, id, slots);
      && (outcome == Violation <==> !ok)
      && (outcome == AllUpdated ==> n == |slots|) && (outcome == WriteConflict ==> n < |slots|)
      && (outcome == AssertionFailed <==> outcome != Violation && index.table.Refuses(numbers[0]))
      && index.table.engine.history == old(index.table.engine.history) + UpdateEvents(s, id, slots, values, outcome)
  {
    if ok {
      var done := index.table.UpdateLive(id, numbers, columnIds, updates);
      outcome := if done == DataTable.Done then AllUpdated else if done == DataTable.Aborted then AssertionFailed else WriteConflict;
    } else {
      outcome := Violation;
    }
  }

  lemma UpdateEnds(index: UniqueIndex, db: Db, h: History, id: nat, slots: seq<nat>, values: seq<Option<Tuple>>, keyed: bool, outcome: UpdateOutcome)
    requires Sound(index) && Unique(db, index.columns) && |values| == |slots|
    requires outcome.Violation? ==> StateOf(index) == db
    requires !outcome.Violation? ==>
      && Planned(db, h, id, slots, values, keyed, index.columns)
      && (outcome.AllUpdated? ==> Accepted(db.state.cells, id, slots) == |slots|)
      && (outcome.WriteConflict? ==> Accepted(db.state.cells, id, slots) < |slots|)
      && StateOf(index) == Db(After(h + UpdateEvents(db.state, id, slots, values, outcome)),
                              db.index + (if keyed then NewEntries(slots, values, index.columns) else {}), db.own)
    ensures Good(index) && StateOf(index) == UpdateResult(db, id, slots, values, keyed, outcome, index.columns)
  {
    assert h + [] == h;
    UpdateKeepsUnique(db, id, slots, values, keyed, outcome, index.columns);
  }

  /** Brings the new keys of the updated rows into the index. */
  method UpdateKeys(index: UniqueIndex, id: nat, numbers: seq<nat>, columnIds: seq<nat>, updates: seq<seq<int>>, raw: seq<seq<int>>,
                    slots: seq<nat>, ghost values: seq<Option<Tuple>>) returns (ok: bool)
    requires Sound(index) && IsActive(After(index.table.engine.history), id) && BytesOf(raw, updates)
    requires index.table.DistinctRows(numbers) && slots == index.table.SlotsFor(numbers)
    requires Updatable(After(index.table.engine.history), slots, columnIds, updates, index.columns)
    requires values == Updated(After(index.table.engine.history), slots, columnIds, updates)
    modifies index
    ensures Sound(index)
    ensures ok <==> old(UpdateAccepted(index, id, numbers, values, RawKeys(After(index.table.engine.history), slots, columnIds, raw, index.columns)))
    ensures StateOf(index) == old(StateOf(index)).(index := old(StateOf(index)).index + if ok then NewEntries(slots, values, index.columns) else {})
  {
    RawKeysAreCopied(After(index.table.engine.history), slots, columnIds, updates, raw, index.columns);
    var targets, hasNull := SerializeUpdate(index, slots, columnIds, updates, raw);
    ok := AddKeys(index, id, numbers, targets, hasNull, values);
  }

  /** What the engine has to do for an update. */
  ghost function UpdateEvents(s: State<nat, Tuple>, id: nat, slots: seq<nat>, values: seq<Option<Tuple>>, outcome: UpdateOutcome): History
    requires |values| == |slots|
  {
    var n := Accepted(s.cells, id, slots);
    match outcome
    case AllUpdated => WriteEvents(id, slots, values)
    case WriteConflict => WriteEvents(id, slots[..n], Contents(s, slots)[..n])
    case Violation => []
    case AssertionFailed => []
  }
}
