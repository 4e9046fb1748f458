/** When the row identifiers that a scan gives out are right.

  A row in the base table goes out with its number, a row read from an old version with its place in its chunk.
  Update and delete take the identifiers of a scan for row numbers.  With assertions no row behind the first chunk is
  ever written after its insertion, and all identifiers are right; without them a run can give out wrong ones. */
module RowIdentifiers {
  import opened Versions
  import opened Mvcc
  import opened Snapshot
  import opened TableStorage
  import opened Engine
  import opened Uniqueness
  import opened Inserts
  import opened DataTable
  import UT = UniqueTable

  /** The transaction sees the row with the number. */
  ghost predicate SeenAt(s: Scene, number: nat) {
    number < |s.rows| && Visible(CellAt(s.cells, s.rows[number]), s.reader).Some?
  }

  /** The transaction sees the row, but not its newest version. */
  ghost predicate SeenInOldVersion(s: Scene, number: nat) {
    SeenAt(s, number) && var c := CellAt(s.cells, s.rows[number]); c.undo != [] && !Sees(s.reader, c.undo[0].stamp)
  }

  /** Every row that is given out has its number as identifier. */
  ghost predicate RightIds(s: Scene) {
    forall number: nat :: SeenAt(s, number) ==> RowId(CellAt(s.cells, s.rows[number]), s.reader, number) == number
  }

  /** All identifiers are right exactly if no row behind the first chunk is read from an old version. */
  lemma RightIdsExactly(s: Scene)
    ensures RightIds(s) <==> forall number: nat :: SeenInOldVersion(s, number) ==> number < STORAGE_CHUNK_SIZE
  {
    if RightIds(s) {
      forall number: nat | SeenInOldVersion(s, number) ensures number < STORAGE_CHUNK_SIZE {
        assert SeenAt(s, number);
      }
    }
    if forall number: nat :: SeenInOldVersion(s, number) ==> number < STORAGE_CHUNK_SIZE {
      forall number: nat | SeenAt(s, number) ensures RowId(CellAt(s.cells, s.rows[number]), s.reader, number) == number {
        assert SeenInOldVersion(s, number) ==> number < STORAGE_CHUNK_SIZE;
      }
    }
  }

  // ----- with assertions -----

  /** No version of the row but the newest has any data. */
  ghost predicate NoOldData(c: Cell<Tuple>) {
    forall i :: 0 <= i < |c.undo| ==> c.undo[i].before.None?
  }

  /** The row is not seen in an old version. */
  lemma {:induction false} OldDataIsNotSeen(c: Cell<Tuple>, r: Reader)
    requires NoOldData(c) && (c.undo == [] ==> c.cur.None?)
    requires c.undo != [] ==> c.cur.None? || !Sees(r, c.undo[0].stamp)
    ensures Visible(c, r) == None
    decreases |c.undo|
  {
    if c.undo != [] && !Sees(r, c.undo[0].stamp) {
      var p := Pop(c);
      assert forall i :: 0 <= i < |p.undo| ==> p.undo[i] == c.undo[i + 1];
      OldDataIsNotSeen(p, r);
    }
  }

  lemma {:induction false} RevertHasNoOldData(c: Cell<Tuple>, id: nat)
    requires NoOldData(c)
    ensures NoOldData(Revert(c, id))
    decreases |c.undo|
  {
    if OwnedBy(c, id) {
      var p := Pop(c);
      assert forall i :: 0 <= i < |p.undo| ==> p.undo[i] == c.undo[i + 1];
      RevertHasNoOldData(p, id);
    }
  }

  lemma {:induction false} KeepHasNoOldData(undo: seq<Rec<Tuple>>, floor: nat)
    requires forall i :: 0 <= i < |undo| ==> undo[i].before.None?
    ensures forall i :: 0 <= i < |Keep(undo, floor)| ==> Keep(undo, floor)[i].before.None?
  {
    if undo != [] { KeepHasNoOldData(undo[1..], floor); }
  }

  /** Only an insertion or a later write can change what the versions of a row hold. */
  lemma EventHasNoOldData(s: State<nat, Tuple>, e: Event<nat, Tuple>, slot: nat)
    requires NoOldData(CellAt(s.cells, slot))
    requires Writes(e) && e.key == slot ==> e.Write? && slot !in s.cells
    ensures NoOldData(CellAt(Apply(s, e).cells, slot))
  {
    if Enabled(s, e) {
      var c := CellAt(s.cells, slot);
      match e
      case Commit(id) => KeepHasNoOldData(Restamp(c, id, s.clock).undo, LowestStart(Without(s.active, IndexOf(s.active, id))));
      case Rollback(id) =>
        RevertHasNoOldData(c, id);
        KeepHasNoOldData(Revert(c, id).undo, LowestStart(Without(s.active, IndexOf(s.active, id))));
      case _ =>
    }
  }

  /** No event of the history writes the slot after its insertion. */
  ghost predicate InsertedOnly(h: History, slot: nat) {
    h == [] ||
      (InsertedOnly(h[..|h| - 1], slot)
       && (Writes(h[|h| - 1]) && h[|h| - 1].key == slot ==> h[|h| - 1].Write? && slot !in Run(h[..|h| - 1]).cells))
  }

  /** Over every run: a slot that is never written after its insertion has no old data. */
  lemma {:induction false} RunHasNoOldData(h: History, slot: nat)
    requires InsertedOnly(h, slot)
    ensures NoOldData(CellAt(Run(h).cells, slot))
  {
    if h != [] {
      RunHasNoOldData(h[..|h| - 1], slot);
      EventHasNoOldData(Run(h[..|h| - 1]), h[|h| - 1], slot);
    }
  }

  /** No row behind the first chunk has old data. */
  ghost predicate Spared(cells: map<nat, Cell<Tuple>>, rows: seq<nat>) {
    forall number :: STORAGE_CHUNK_SIZE <= number < |rows| ==> NoOldData(CellAt(cells, rows[number]))
  }

  /** The identifiers are right for every transaction that scans such a table. */
  lemma SparedIdsAreRight(s: Scene)
    requires Spared(s.cells, s.rows)
    ensures RightIds(s)
  {
    forall number: nat | SeenInOldVersion(s, number) ensures number < STORAGE_CHUNK_SIZE {
      if STORAGE_CHUNK_SIZE <= number {
        OldDataIsNotSeen(CellAt(s.cells, s.rows[number]), s.reader);
      }
    }
    RightIdsExactly(s);
  }

  lemma SparedByEvent(h: History, e: Event<nat, Tuple>, rows: seq<nat>)
    requires Spared(After(h).cells, rows) && !Writes(e)
    ensures Spared(After(h + [e]).cells, rows)
  {
    AfterStep(h, e);
    forall number | STORAGE_CHUNK_SIZE <= number < |rows| ensures NoOldData(CellAt(After(h + [e]).cells, rows[number])) {
      EventHasNoOldData(After(h), e, rows[number]);
    }
  }

  /** Writes to rows of the first chunk, or of other tables. */
  lemma SparedByWrites(h: History, id: nat, slots: seq<nat>, values: seq<Option<Tuple>>, rows: seq<nat>)
    requires Spared(After(h).cells, rows) && |slots| == |values| && IsActive(After(h), id)
    requires forall number :: STORAGE_CHUNK_SIZE <= number < |rows| ==> rows[number] in After(h).cells && rows[number] !in slots
    ensures Spared(After(h + WriteEvents(id, slots, values)).cells, rows)
  {
    WritesLeaveOthers(h, id, slots, values);
  }

  /** New rows. */
  lemma SparedByAppend(h: History, id: nat, slots: seq<nat>, values: seq<Option<Tuple>>, rows: seq<nat>)
    requires Spared(After(h).cells, rows) && |slots| == |values| && MayWrite(After(h), id, slots)
    requires forall slot :: slot in rows ==> slot in After(h).cells
    requires forall slot :: slot in slots ==> slot !in After(h).cells
    ensures Spared(After(h + WriteEvents(id, slots, values)).cells, rows + slots)
  {
    var t := After(h + WriteEvents(id, slots, values));
    UT.WritesAreWriteAll(h, id, slots, values);
    WriteAllTakesEffect(After(h), id, slots, values);
    forall number | STORAGE_CHUNK_SIZE <= number < |rows + slots| ensures NoOldData(CellAt(t.cells, (rows + slots)[number])) {
      if number < |rows| {
        assert rows[number] in rows && rows[number] !in slots;
      } else {
        assert slots[number - |rows|] in slots;
      }
    }
  }

  /** What a scan gives out for a row. */
  lemma {:induction false} RowIsEmitted(s: Scene, numbers: seq<nat>, m: nat)
    requires m < |numbers| && SeenAt(s, numbers[m])
    ensures var c := CellAt(s.cells, s.rows[numbers[m]]);
      Given(c, s.reader, numbers[m], Visible(c, s.reader).value) in Emissions(s, numbers)
  {
    var n := |numbers| - 1;
    if m < n { RowIsEmitted(s, numbers[..n], m); }
  }

  // ----- a run that gives out a wrong identifier -----

  /** Rows that hold their numbers, counted from somewhere. */
  function NumberedRows(origin: int, first: nat, n: nat): (rows: seq<Tuple>)
    ensures |rows| == n && forall i :: 0 <= i < n ==> rows[i] == [origin + first + i]
  {
    seq(n, i requires 0 <= i < n => [origin + first + i])
  }

  ghost function NumberedHistory(h: History, origin: int, id: nat, n: nat): History {
    h + WriteEvents(id, NewSlots(0, n), Somes(NumberedRows(origin, 0, n)))
  }

  lemma NumberedRowsSplit(origin: int, n: nat, m: nat)
    ensures NumberedRows(origin, 0, n + m)[..n] == NumberedRows(origin, 0, n)
    ensures NumberedRows(origin, 0, n + m)[n..] == NumberedRows(origin, n, m)
  {
    var rows := NumberedRows(origin, 0, n + m);
    forall i | 0 <= i < m ensures rows[n..][i] == NumberedRows(origin, n, m)[i] {
      assert rows[n..][i] == rows[n + i];
    }
  }

  ghost function NumberedEvents(origin: int, id: nat, first: nat, n: nat): History {
    WriteEvents(id, NewSlots(first, n), Somes(NumberedRows(origin, first, n)))
  }

  lemma EventsOf(id: nat, rows: seq<Tuple>, a: seq<Tuple>, b: seq<Tuple>, n: nat)
    requires n <= |rows| && a == rows[..n] && b == rows[n..]
    ensures WriteEvents(id, NewSlots(0, |rows|), Somes(rows)) == WriteEvents(id, NewSlots(0, n), Somes(a)) + WriteEvents(id, NewSlots(n, |b|), Somes(b))
    ensures NewSlots(0, n) + NewSlots(n, |b|) == NewSlots(0, |rows|)
  {
    EventsJoin(id, 0, rows, n);
  }

  lemma NumberedEventsJoin(origin: int, id: nat, n: nat, m: nat)
    ensures NumberedEvents(origin, id, 0, n) + NumberedEvents(origin, id, n, m) == NumberedEvents(origin, id, 0, n + m)
    ensures NewSlots(0, n) + NewSlots(n, m) == NewSlots(0, n + m)
  {
    NumberedRowsSplit(origin, n, m);
    EventsOf(id, NumberedRows(origin, 0, n + m), NumberedRows(origin, 0, n), NumberedRows(origin, n, m), n);
  }

  lemma FilledMore(h: History, origin: int, id: nat, n: nat, m: nat)
    ensures NumberedHistory(h, origin, id, n) + WriteEvents(id, NewSlots(n, m), Somes(NumberedRows(origin, n, m))) == NumberedHistory(h, origin, id, n + m)
    ensures NewSlots(0, n) + NewSlots(n, m) == NewSlots(0, n + m)
  {
    NumberedEventsJoin(origin, id, n, m);
    JoinAssociates(h, NumberedEvents(origin, id, 0, n), NumberedEvents(origin, id, n, m));
  }

  /** Fills an empty table with numbered rows. */
  method Fill(t: DataTable, origin: int, id: nat, total: nat)
    requires t.Valid() && IsActive(After(t.engine.history), id) && Rows(t.chunks) == [] && t.engine.storage.chains == []
    modifies t, t.engine, t.engine.storage
    ensures t.Valid() && IsActive(After(t.engine.history), id)
    ensures Rows(t.chunks) == NewSlots(0, total) && t.engine.history == NumberedHistory(old(t.engine.history), origin, id, total)
  {
    ghost var h := t.engine.history;
    var n := 0;
    assert NewSlots(0, 0) == [] && NumberedHistory(h, origin, id, 0) == h;
    while n < total
      invariant n <= total && t.Valid() && IsActive(After(t.engine.history), id) && |t.engine.storage.chains| == n
      invariant Rows(t.chunks) == NewSlots(0, n) && t.engine.history == NumberedHistory(h, origin, id, n)
    {
      var m := Min(STANDARD_VECTOR_SIZE, total - n);
      AppendNumbered(t, origin, id, n, m, h);
      n := n + m;
    }
  }

  method AppendNumbered(t: DataTable, origin: int, id: nat, n: nat, m: nat, ghost h: History)
    requires t.Valid() && IsActive(After(t.engine.history), id) && |t.engine.storage.chains| == n && m <= STANDARD_VECTOR_SIZE
    requires Rows(t.chunks) == NewSlots(0, n) && t.engine.history == NumberedHistory(h, origin, id, n)
    modifies t, t.engine, t.engine.storage
    ensures t.Valid() && IsActive(After(t.engine.history), id) && |t.engine.storage.chains| == n + m
    ensures Rows(t.chunks) == NewSlots(0, n + m) && t.engine.history == NumberedHistory(h, origin, id, n + m)
  {
    t.engine.SlotsShow();
    t.Append(id, NumberedRows(origin, n, m));
    t.engine.SlotsShow();
    FilledMore(h, origin, id, n, m);
  }

  /** A transaction has filled the table and committed, and two others have started. */
  ghost function Prepared(origin: int, total: nat): History {
    NumberedHistory([Begin], origin, TRANSACTION_ID_START, total) + [Commit(TRANSACTION_ID_START)] + [Begin] + [Begin]
  }

  lemma PreparedPlainly(origin: int, total: nat)
    ensures NoRewrites(Prepared(origin, total))
  {
  }

  lemma CommittedCell(v: Tuple, id: nat, commitId: nat, floor: nat, other: nat)
    requires !Uncommitted(commitId)
    ensures var c := Purge(Restamp(Overwrite(Cell(None, []), id, Some(v)), id, commitId), floor);
      c.cur == Some(v) && !Conflicts(c, other)
  {
    var r := Restamp(Overwrite(Cell(None, []), id, Some(v)), id, commitId);
    assert r.undo == [Rec(commitId, None)];
    KeepIsPrefix(r.undo, floor);
  }

  lemma FilledRun(origin: int, total: nat)
    ensures var h, writer := NumberedHistory([Begin], origin, TRANSACTION_ID_START, total), TRANSACTION_ID_START;
      && IsActive(After([Begin]), writer) && Enabled(After(h), Commit(writer)) && writer in SpecAfter(h).views
      && After(h).clock == 1 && After(h).nextId == writer + 1 && MayWrite(After([Begin]), writer, NewSlots(0, total))
      && After([Begin]).cells == map[]
      && SpecAfter(h).views[writer].mine == Placed(NewSlots(0, total), NumberedRows(origin, 0, total)) && SpecAfter(h).db == map[]
  {
    var slots, rows := NewSlots(0, total), NumberedRows(origin, 0, total);
    AfterIsRun([]);
    SpecAfterIs([]);
    var begun: History := [Begin];
    assert After([]) == Init() && SpecAfter([]) == SpecInit() && [] + begun == begun;
    Started([]);
    Inserted([Begin], TRANSACTION_ID_START, slots, rows);
    assert map[] + Placed(slots, rows) == Placed(slots, rows);
  }

  /** After the rows were inserted. */
  lemma FilledCells(origin: int, total: nat, number: nat)
    requires number < total
    ensures var h, writer := NumberedHistory([Begin], origin, TRANSACTION_ID_START, total), TRANSACTION_ID_START;
      && IsActive(After([Begin]), writer) && Enabled(After(h), Commit(writer)) && writer in SpecAfter(h).views
      && After(h).clock == 1 && After(h).nextId == writer + 1
      && number in After(h).cells && After(h).cells[number] == Overwrite(Cell(None, []), writer, Some([origin + number]))
      && SpecAfter(h).views[writer].mine == Placed(NewSlots(0, total), NumberedRows(origin, 0, total)) && SpecAfter(h).db == map[]
  {
    var slots, rows := NewSlots(0, total), NumberedRows(origin, 0, total);
    FilledRun(origin, total);
    UT.WritesAreWriteAll([Begin], TRANSACTION_ID_START, slots, Somes(rows));
    WriteAllTakesEffect(After([Begin]), TRANSACTION_ID_START, slots, Somes(rows));
    assert slots[number] == number;
  }

  /** Before the update: the row is live, and nobody has a hold on it. */
  lemma PreparedCells(origin: int, total: nat, number: nat)
    requires number < total
    ensures var h, reader := Prepared(origin, total), TRANSACTION_ID_START + 1;
      && IsActive(After(h), reader) && IsActive(After(h), reader + 1)
      && number in After(h).cells && After(h).cells[number].cur == Some([origin + number]) && !Conflicts(After(h).cells[number], reader + 1)
      && reader in SpecAfter(h).views && SpecRead(SpecAfter(h).views[reader], number) == Some([origin + number])
  {
    var h, writer := NumberedHistory([Begin], origin, TRANSACTION_ID_START, total), TRANSACTION_ID_START;
    var slots, rows := NewSlots(0, total), NumberedRows(origin, 0, total);
    FilledCells(origin, total, number);
    CommitPublishesView(h, writer);
    AfterCommit(h, writer);
    var s := After(h);
    var stamped := Mvcc.Unlist(s.(clock := s.clock + 1, cells := MapRestamp(s.cells, writer, s.clock)), IndexOf(s.active, writer), s.clock);
    CommittedCell([origin + number], writer, s.clock, LowestStart(stamped.active), writer + 2);
    Started(h + [Commit(writer)]);
    Started(h + [Commit(writer)] + [Begin]);
    StaysActiveOnBegin(After(h + [Commit(writer)] + [Begin]), writer + 1);
    AfterBegin(h + [Commit(writer)] + [Begin]);
    PlacedAt(slots, rows);
    assert slots[number] == number;
  }

  lemma StaysActiveOnBegin(s: State<nat, Tuple>, id: nat)
    requires IsActive(s, id)
    ensures IsActive(BeginStep(s), id)
  {
    var i := IndexOf(s.active, id);
    assert s.active[i].id == id && BeginStep(s).active[i].id == id;
  }

  /** Somebody has updated the row, and the reader still has its committed version in its snapshot. */
  lemma UpdatedElsewhere(h: History, reader: nat, updater: nat, number: nat, v: Option<Tuple>, row: Tuple)
    requires NoRewrites(h) && IsActive(After(h), reader) && IsActive(After(h), updater) && reader != updater
    requires number in After(h).cells && !Conflicts(After(h).cells[number], updater)
    requires reader in SpecAfter(h).views && SpecRead(SpecAfter(h).views[reader], number) == Some(row)
    ensures var h' := h + [Write(updater, number, v)];
      && IsActive(After(h'), reader)
      && var r := After(h').active[IndexOf(After(h').active, reader)].AsReader();
         var c := CellAt(After(h').cells, number);
         Visible(c, r) == Some(row) && c.undo != [] && !Sees(r, c.undo[0].stamp)
  {
    var h' := h + [Write(updater, number, v)];
    var i := IndexOf(After(h).active, reader);
    AfterInv(h);
    AfterWrite(h, updater, number, v);
    SpecSnoc(h, Write(updater, number, v));
    AfterIsRun(h');
    SpecAfterIs(h');
    NoRewritesIsClean(h');
    SnapshotIsolation(h', i, number);
    HeadIsForeign(After(h), reader, updater, number, v);
  }

  /** The newest version is the updater's, and the reader does not see it. */
  lemma HeadIsForeign(s: State<nat, Tuple>, reader: nat, updater: nat, number: nat, v: Option<Tuple>)
    requires Inv(s) && IsActive(s, reader) && IsActive(s, updater) && reader != updater
    requires number in s.cells && !Conflicts(s.cells[number], updater)
    ensures var t := WriteStep(s, updater, number, v);
      && t.active == s.active
      && var r, c := s.active[IndexOf(s.active, reader)].AsReader(), CellAt(t.cells, number);
         c.undo != [] && !Sees(r, c.undo[0].stamp)
  {
    assert s.active[IndexOf(s.active, updater)].id == updater;
  }

  /** A table with numbered rows, committed, and two transactions. */
  method PreparedTable(origin: int, total: nat, asserts: bool) returns (t: DataTable, reader: nat, updater: nat)
    ensures fresh(t) && fresh(t.engine) && fresh(t.engine.storage) && t.Valid() && t.asserts == asserts
    ensures Rows(t.chunks) == NewSlots(0, total) && t.engine.history == Prepared(origin, total)
    ensures reader == TRANSACTION_ID_START + 1 && updater == TRANSACTION_ID_START + 2
  {
    var engine := new Engine();
    engine.SlotsShow();
    AfterIsRun([]);
    t := new DataTable(engine, 0, asserts);
    PreparedRun(origin, total);
    var started, writer := engine.StartTransaction();
    assert engine.history == [Begin];
    Fill(t, origin, writer, total);
    var log := engine.Commit(writer);
    started, reader := engine.StartTransaction();
    started, updater := engine.StartTransaction();
  }

  /** The numbers that the transactions get. */
  lemma PreparedRun(origin: int, total: nat)
    ensures var h, writer := NumberedHistory([Begin], origin, TRANSACTION_ID_START, total), TRANSACTION_ID_START;
      && After([]) == Init() && IsActive(After([Begin]), writer) && Enabled(After(h), Commit(writer))
      && After(h + [Commit(writer)]).nextId == writer + 1 && After(h + [Commit(writer)] + [Begin]).nextId == writer + 2
  {
    var h, writer := NumberedHistory([Begin], origin, TRANSACTION_ID_START, total), TRANSACTION_ID_START;
    AfterIsRun([]);
    FilledRun(origin, total);
    CommitPublishesView(h, writer);
    Started(h + [Commit(writer)]);
  }

  /** Updates the only column of one row. */
  method UpdateOne(t: DataTable, ghost origin: int, id: nat, number: nat)
    requires !t.Refuses(number) && t.Valid() && IsActive(After(t.engine.history), id) && number < |Rows(t.chunks)| && Rows(t.chunks)[number] == number
    requires number in After(t.engine.history).cells && !Conflicts(After(t.engine.history).cells[number], id)
    requires After(t.engine.history).cells[number].cur == Some([origin + number])
    modifies t.engine, t.engine.storage
    ensures t.Valid() && t.chunks == old(t.chunks)
    ensures exists v :: t.engine.history == old(t.engine.history) + [Write(id, number, v)]
  {
    ghost var h := t.engine.history;
    var numbers, columnIds, updates := [number], [0], [[-1]];
    assert t.DistinctRows(numbers) && t.SlotsFor(numbers) == [number];
    var outcome := t.UpdateLive(id, numbers, columnIds, updates);
    assert Accepted(After(h).cells, id, [number]) == 1;
    ghost var values := Updated(After(h), [number], columnIds, updates);
    assert WriteEvents(id, [number], values) == [Write(id, number, values[0])];
  }

  method ScanUpdated(t: DataTable, ghost origin: int, ghost h: History, reader: nat, ghost updater: nat, ghost number: nat) returns (found: seq<Found>)
    requires t.Valid() && number < |Rows(t.chunks)| && Rows(t.chunks)[number] == number
    requires NoRewrites(h) && IsActive(After(h), reader) && IsActive(After(h), updater) && reader != updater
    requires number in After(h).cells && !Conflicts(After(h).cells[number], updater)
    requires reader in SpecAfter(h).views && SpecRead(SpecAfter(h).views[reader], number) == Some([origin + number])
    requires exists v :: t.engine.history == h + [Write(updater, number, v)]
    ensures FromVersion(number % STORAGE_CHUNK_SIZE, [origin + number]) in multiset(found)
  {
    ghost var v :| t.engine.history == h + [Write(updater, number, v)];
    UpdatedElsewhere(h, reader, updater, number, v, [origin + number]);
    found := t.ScanAll(reader);
    ghost var s := t.SceneOf(reader);
    EmittedIs(s, Range(0, |s.rows|));
    RowIsEmitted(s, Range(0, |s.rows|), number);
  }

  /** One transaction reads while another updates one of the rows. */
  method ReadWhileUpdated(origin: int, total: nat, number: nat, asserts: bool) returns (found: seq<Found>)
    requires number < total && (asserts ==> number < STORAGE_CHUNK_SIZE)
    ensures FromVersion(number % STORAGE_CHUNK_SIZE, [origin + number]) in multiset(found)
  {
    var t, reader, updater := PreparedTable(origin, total, asserts);
    PreparedCells(origin, total, number);
    PreparedPlainly(origin, total);
    ghost var h := t.engine.history;
    UpdateOne(t, origin, updater, number);
    found := ScanUpdated(t, origin, h, reader, updater, number);
  }

  /** Without assertions, a scan of more rows than a chunk holds gives out the first row behind the first chunk with the
      identifier of the very first row, because somebody else is updating it. */
  method WrongIdentifier() returns (found: seq<Found>)
    ensures FromVersion(0, [STORAGE_CHUNK_SIZE]) in multiset(found)
  {
    found := ReadWhileUpdated(0, STORAGE_CHUNK_SIZE + 1, STORAGE_CHUNK_SIZE, false);
  }
}
