/** Who is refused: a transaction that updates a row which another one has updated and committed since it began is not. */
module Refusals {
  import opened Versions
  import opened Mvcc
  import opened Snapshot
  import opened Reference
  import opened TableStorage
  import opened Engine
  import opened Inserts
  import DB = Database
  import DataTable

  lemma OneEvent(h: History, id: nat, slot: nat, v: Option<Tuple>)
    ensures h + WriteEvents(id, [slot], [v]) == h + [Write(id, slot, v)]
  {
    assert WriteEvents(id, [slot], [v]) == [Write(id, slot, v)];
  }

  lemma NobodyElseWroteOne(h: History, id: nat, slot: nat)
    ensures NobodyElseWrote(h, id, [slot]) <==> !WrittenByOther(SpecAfter(h), id, slot)
  {
    NobodyElseWroteIs(h, id, [slot]);
    SpecAfterIs(h);
    assert [slot][0] == slot;
  }

  /** What a write and the commit after it leave to another transaction that nobody was in the way of. */
  lemma AfterWriteAndCommit(h: History, first: nat, second: nat, slot: nat, v: Tuple)
    requires Clean(h) && first != second && IsActive(After(h), first) && Enabled(After(h), Commit(second)) && slot in After(h).cells
    requires NobodyElseWrote(h, first, [slot]) && NobodyElseWrote(h, second, [slot])
    ensures var h' := h + [Write(second, slot, Some(v))] + [Commit(second)];
      && Enabled(After(h + [Write(second, slot, Some(v))]), Commit(second)) && IsActive(After(h'), first)
      && slot in After(h').cells && After(h').cells[slot].cur == Some(v) && NobodyElseWrote(h', first, [slot])
  {
    var w, c := Write(second, slot, Some(v)), Commit(second);
    NobodyElseWroteOne(h, first, slot);
    NobodyElseWroteOne(h, second, slot);
    NobodyElseWroteOne(h + [w] + [c], first, slot);
    RefusedExactly(h, second, slot);
    SpecAfterIs(h);
    AfterIsRun(h);
    ViewsAreOfActive(h, second);
    AfterWrite(h, second, slot, Some(v));
    SpecSnoc(h, w);
    StaysInList(After(h + [w]), second, first);
    AfterCommit(h + [w], second);
    SpecSnoc(h + [w], c);
  }

  lemma StaysInList(s: State<nat, Tuple>, id: nat, other: nat)
    requires IsActive(s, id) && IsActive(s, other) && id != other
    ensures IsActive(CommitStep(s, id), other)
  {
    var t, n := CommitStep(s, id), IndexOf(s.active, id);
    WithoutAt(s.active, n);
    var i := IndexOf(s.active, other);
    assert s.active[i].id == other && s.active[n].id == id;
    assert t.active[if i < n then i else i - 1] == s.active[i];
  }

  /** Sets one column of a live row that no other running transaction has written. */
  method UpdateRow(db: DB.Database, j: nat, id: nat, number: nat, column: nat, value: int) returns (outcome: DataTable.Outcome)
    requires db.Valid() && j < |db.tables| && number < |DataTable.Rows(db.tables[j].chunks)| && !db.tables[j].Refuses(number)
    requires var slot := DataTable.Rows(db.tables[j].chunks)[number];
      && IsActive(After(db.engine.history), id) && NobodyElseWrote(db.engine.history, id, [slot])
      && slot in After(db.engine.history).cells && After(db.engine.history).cells[slot].cur.Some?
      && column < |After(db.engine.history).cells[slot].cur.value|
    modifies db.engine, db.engine.storage
    ensures db.Valid() && outcome == DataTable.Done
    ensures var slot := DataTable.Rows(db.tables[j].chunks)[number];
      db.engine.history == old(db.engine.history)
        + [Write(id, slot, Some(After(old(db.engine.history)).cells[slot].cur.value[column := value]))]
  {
    ghost var h, slot := db.engine.history, DataTable.Rows(db.tables[j].chunks)[number];
    var numbers, columnIds, updates := [number], [column], [[value]];
    assert db.tables[j].DistinctRows(numbers) && db.tables[j].SlotsFor(numbers) == [slot];
    outcome := db.Update(j, id, numbers, columnIds, updates);
    UpdatedOne(After(h), slot, column, value);
    OneEvent(h, id, slot, Updated(After(h), [slot], columnIds, updates)[0]);
    assert Updated(After(h), [slot], columnIds, updates) == [Updated(After(h), [slot], columnIds, updates)[0]];
  }

  lemma UpdatedOne(s: State<nat, Tuple>, slot: nat, column: nat, value: int)
    requires slot in s.cells && s.cells[slot].cur.Some? && column < |s.cells[slot].cur.value|
    ensures AllLive(s, [slot]) && Updated(s, [slot], [column], [[value]]) == [Some(s.cells[slot].cur.value[column := value])]
  {
    var row := s.cells[slot].cur.value;
    assert RowValues([[value]], 0) == [value];
    assert Assigned(row, [column], [value]) == row[column := value] by {
      assert Assigned(row, [column][..0], [value][..0]) == row;
    }
  }

  /** Two transactions are running, one of them updates a row and commits; the update of the same row by the other one is
    accepted, although it does not see what it overwrites. */
  method UpdateAfterCommit(db: DB.Database, j: nat, first: nat, second: nat, number: nat, column: nat, value: int, value': int)
      returns (outcome: DataTable.Outcome)
    requires db.Valid() && j < |db.tables| && number < |DataTable.Rows(db.tables[j].chunks)| && !db.tables[j].Refuses(number)
    requires first != second && IsActive(After(db.engine.history), first) && Enabled(After(db.engine.history), Commit(second))
    requires var slot := DataTable.Rows(db.tables[j].chunks)[number];
      && NobodyElseWrote(db.engine.history, first, [slot]) && NobodyElseWrote(db.engine.history, second, [slot])
      && slot in After(db.engine.history).cells && After(db.engine.history).cells[slot].cur.Some?
      && column < |After(db.engine.history).cells[slot].cur.value|
    modifies db.engine, db.engine.storage
    ensures db.Valid() && outcome == DataTable.Done
    ensures var h, slot := old(db.engine.history), DataTable.Rows(db.tables[j].chunks)[number];
      var row := After(h).cells[slot].cur.value;
      db.engine.history == h + [Write(second, slot, Some(row[column := value]))] + [Commit(second)] + [Write(first, slot, Some(row[column := value']))]
  {
    ghost var h, slot := db.engine.history, DataTable.Rows(db.tables[j].chunks)[number];
    ghost var row := After(h).cells[slot].cur.value;
    db.TableIsScannable(j);
    AfterWriteAndCommit(h, first, second, slot, row[column := value]);
    outcome := UpdateRow(db, j, second, number, column, value);
    var log := db.Commit(second);
    outcome := UpdateRow(db, j, first, number, column, value');
    assert row[column := value][column := value'] == row[column := value'];
  }
}
