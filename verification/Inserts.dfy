/** What transactions that start later see of inserted rows. */
module Inserts {
  import opened Versions
  import opened Mvcc
  import opened Snapshot
  import opened TableStorage
  import opened Engine
  import opened Uniqueness
  import DataTable
  import UT = UniqueTable

  /** SpecRun, closed. */
  ghost function SpecAfter(h: History, n: nat := CLOSED): Spec<nat, Tuple>
    decreases |h|, n
  {
    if n == 0 then SpecRun(h) else SpecAfter(h, n - 1)
  }

  lemma {:induction false} SpecAfterIs(h: History, n: nat := CLOSED)
    ensures SpecAfter(h, n) == SpecRun(h)
    decreases n
  {
    if n > 0 { SpecAfterIs(h, n - 1); }
  }

  lemma SpecSnoc(h: History, e: Event<nat, Tuple>)
    ensures SpecAfter(h + [e]) == SpecApply(SpecAfter(h), e, Enabled(After(h), e), After(h).nextId)
  {
    AfterIsRun(h);
    SpecAfterIs(h);
    SpecAfterIs(h + [e]);
    assert (h + [e])[..|h|] == h;
  }

  /** Rows in their slots. */
  ghost function Placed(slots: seq<nat>, rows: seq<Tuple>): map<nat, Option<Tuple>>
    requires |slots| == |rows|
  {
    if slots == [] then map[] else Placed(slots[..|slots| - 1], rows[..|slots| - 1])[slots[|slots| - 1] := Some(rows[|slots| - 1])]
  }

  lemma {:induction false} PlacedAt(slots: seq<nat>, rows: seq<Tuple>)
    requires |slots| == |rows| && AllDistinct(slots)
    ensures forall i :: 0 <= i < |slots| ==> slots[i] in Placed(slots, rows) && Placed(slots, rows)[slots[i]] == Some(rows[i])
    ensures forall slot :: slot in Placed(slots, rows) ==> slot in slots
  {
    if slots != [] {
      var n := |slots| - 1;
      PlacedAt(slots[..n], rows[..n]);
      assert slots == slots[..n] + [slots[n]];
    }
  }

  /** The reference machine after a transaction has written some rows. */
  ghost function WithMine(a: Spec<nat, Tuple>, id: nat, more: map<nat, Option<Tuple>>): Spec<nat, Tuple>
    requires id in a.views
  {
    a.(views := a.views[id := a.views[id].(mine := a.views[id].mine + more)])
  }

  lemma WriteGoesToView(h: History, a: Spec<nat, Tuple>, id: nat, more: map<nat, Option<Tuple>>, slot: nat, row: Tuple)
    requires id in a.views && SpecAfter(h) == WithMine(a, id, more) && Enabled(After(h), Write(id, slot, Some(row)))
    ensures SpecAfter(h + [Write(id, slot, Some(row))]) == WithMine(a, id, more[slot := Some(row)])
  {
    SpecSnoc(h, Write(id, slot, Some(row)));
    assert (a.views[id].mine + more)[slot := Some(row)] == a.views[id].mine + more[slot := Some(row)];
  }

  lemma MayWritePrefix(s: State<nat, Tuple>, id: nat, slots: seq<nat>, values: seq<Option<Tuple>>)
    requires |slots| == |values| && slots != [] && MayWrite(s, id, slots)
    ensures var n := |slots| - 1;
      MayWrite(s, id, slots[..n]) && Enabled(WriteAll(s, id, slots[..n], values[..n]), Write(id, slots[n], values[n]))
  {
    var n := |slots| - 1;
    WriteAllTakesEffect(s, id, slots[..n], values[..n]);
    assert slots[n] !in slots[..n];
  }

  /** The writes of a transaction go into its view. */
  lemma {:induction false} WritesGoToView(h: History, id: nat, slots: seq<nat>, rows: seq<Tuple>)
    requires |slots| == |rows| && MayWrite(After(h), id, slots) && id in SpecAfter(h).views
    ensures SpecAfter(h + WriteEvents(id, slots, Somes(rows))) == WithMine(SpecAfter(h), id, Placed(slots, rows))
    decreases |slots|
  {
    if slots == [] {
      assert h + WriteEvents(id, slots, Somes(rows)) == h;
      assert SpecAfter(h).views[id].mine + map[] == SpecAfter(h).views[id].mine;
    } else {
      var n := |slots| - 1;
      MayWritePrefix(After(h), id, slots, Somes(rows));
      WritesGoToView(h, id, slots[..n], rows[..n]);
      LastWrite(h, id, slots, rows);
      WriteGoesToView(h + WriteEvents(id, slots[..n], Somes(rows[..n])), SpecAfter(h), id, Placed(slots[..n], rows[..n]), slots[n], rows[n]);
    }
  }

  lemma LastWrite(h: History, id: nat, slots: seq<nat>, rows: seq<Tuple>)
    requires |slots| == |rows| && slots != []
    ensures var n := |slots| - 1;
      && After(h + WriteEvents(id, slots[..n], Somes(rows[..n]))) == WriteAll(After(h), id, slots[..n], Somes(rows)[..n])
      && h + WriteEvents(id, slots, Somes(rows)) == h + WriteEvents(id, slots[..n], Somes(rows[..n])) + [Write(id, slots[n], Some(rows[n]))]
  {
    var n := |slots| - 1;
    WriteEventsStep(h, id, slots, Somes(rows), n);
    assert slots[..n + 1] == slots && Somes(rows)[..n + 1] == Somes(rows) && Somes(rows)[..n] == Somes(rows[..n]);
    UT.WritesAreWriteAll(h, id, slots[..n], Somes(rows[..n]));
  }

  /** What a transaction does that inserts rows. */
  lemma Inserted(h: History, id: nat, slots: seq<nat>, rows: seq<Tuple>)
    requires |slots| == |rows| && IsActive(After(h), id) && AllDistinct(slots) && id in SpecAfter(h).views
    requires forall slot :: slot in slots ==> slot !in After(h).cells
    ensures var h' := h + WriteEvents(id, slots, Somes(rows));
      && After(h') == After(h).(cells := After(h').cells)
      && (forall slot :: slot in After(h').cells ==> slot in After(h).cells || slot in slots)
      && SpecAfter(h') == WithMine(SpecAfter(h), id, Placed(slots, rows))
  {
    assert MayWrite(After(h), id, slots);
    WritesGoToView(h, id, slots, rows);
    UT.WritesAreWriteAll(h, id, slots, Somes(rows));
    WriteAllTakesEffect(After(h), id, slots, Somes(rows));
  }

  lemma Started(h: History)
    requires Enabled(After(h), Begin)
    ensures var h', id := h + [Begin], After(h).nextId;
      && IsActive(After(h'), id) && After(h').cells == After(h).cells && After(h').clock == After(h).clock + 1 && After(h').nextId == id + 1
      && SpecAfter(h') == SpecAfter(h).(views := SpecAfter(h).views[id := View(SpecAfter(h).db, map[])])
  {
    AfterBegin(h);
    SpecSnoc(h, Begin);
    var t := BeginStep(After(h));
    assert t.active[|After(h).active|].id == After(h).nextId;
  }

  lemma CommitPublishesView(h: History, id: nat)
    requires Enabled(After(h), Commit(id)) && id in SpecAfter(h).views
    ensures var h' := h + [Commit(id)];
      && After(h').clock == After(h).clock + 1 && After(h').nextId == After(h).nextId
      && SpecAfter(h') == Spec(Publish(SpecAfter(h).db, SpecAfter(h).views[id].mine), SpecAfter(h).views - {id})
  {
    AfterCommit(h, id);
    SpecSnoc(h, Commit(id));
  }

  /** The history of a transaction that fills two tables and commits, and of one that starts afterwards. */
  ghost function Filling(h: History, id: nat, slots: seq<nat>, rows: seq<Tuple>, slots': seq<nat>, rows': seq<Tuple>): History
    requires |slots| == |rows| && |slots'| == |rows'|
  {
    h + [Begin] + WriteEvents(id, slots, Somes(rows)) + WriteEvents(id, slots', Somes(rows')) + [Commit(id)] + [Begin]
  }

  /** What was committed before, and the inserted rows. */
  ghost function FilledView(db: map<nat, Tuple>, slots: seq<nat>, rows: seq<Tuple>, slots': seq<nat>, rows': seq<Tuple>): View<nat, Tuple>
    requires |slots| == |rows| && |slots'| == |rows'|
  {
    View(Publish(db, Placed(slots, rows) + Placed(slots', rows')), map[])
  }

  /** Every step of such a history will be accepted. */
  ghost predicate CanFill(h: History, slots: seq<nat>, rows: seq<Tuple>, slots': seq<nat>, rows': seq<Tuple>)
    requires |slots| == |rows| && |slots'| == |rows'|
  {
    var id := After(h).nextId;
    var h3 := h + [Begin] + WriteEvents(id, slots, Somes(rows)) + WriteEvents(id, slots', Somes(rows'));
    var h4 := h3 + [Commit(id)];
    && Enabled(After(h), Begin)
    && IsActive(After(h + [Begin]), id) && IsActive(After(h + [Begin] + WriteEvents(id, slots, Somes(rows))), id)
    && Enabled(After(h3), Commit(id)) && Enabled(After(h4), Begin) && After(h4).nextId == id + 1
  }

  /** A transaction inserts rows into two tables and commits: whoever starts then has them in its snapshot, and nothing else
      in it is different. */
  lemma Filled(h: History, slots: seq<nat>, rows: seq<Tuple>, slots': seq<nat>, rows': seq<Tuple>)
    requires |slots| == |rows| && |slots'| == |rows'| && After(h).clock + 2 < TRANSACTION_ID_START
    requires AllDistinct(slots) && AllDistinct(slots') && forall slot :: slot in slots + slots' ==> slot !in After(h).cells
    requires forall slot :: slot in slots' ==> slot !in slots
    ensures CanFill(h, slots, rows, slots', rows')
    ensures var id := After(h).nextId;
      var h5 := Filling(h, id, slots, rows, slots', rows');
      && IsActive(After(h5), id + 1) && id + 1 in SpecAfter(h5).views
      && SpecAfter(h5).views[id + 1] == FilledView(SpecAfter(h).db, slots, rows, slots', rows')
  {
    var id := After(h).nextId;
    var h1 := h + [Begin];
    var h2 := h1 + WriteEvents(id, slots, Somes(rows));
    var h3 := h2 + WriteEvents(id, slots', Somes(rows'));
    var h4 := h3 + [Commit(id)];
    Started(h);
    Inserted(h1, id, slots, rows);
    Inserted(h2, id, slots', rows');
    assert map[] + Placed(slots, rows) == Placed(slots, rows);
    CommitPublishesView(h3, id);
    Started(h4);
  }

  // ----- scanning them -----

  ghost predicate Finds(found: multiset<DataTable.Found>, row: Tuple) {
    exists f :: f in found && f.row == row
  }

  /** A scan gives every row that the view has. */
  lemma {:induction false} SnapshotHas(v: View<nat, Tuple>, s: DataTable.Scene, numbers: seq<nat>, m: nat, row: Tuple)
    requires m < |numbers| && numbers[m] < |s.rows| && SpecRead(v, s.rows[numbers[m]]) == Some(row)
    ensures Finds(DataTable.SnapshotRows(v, s, numbers), row)
  {
    var n := |numbers| - 1;
    if m < n {
      SnapshotHas(v, s, numbers[..n], m, row);
      var f :| f in DataTable.SnapshotRows(v, s, numbers[..n]) && f.row == row;
      assert f in DataTable.SnapshotRows(v, s, numbers);
    } else {
      var f := DataTable.Given(CellAt(s.cells, s.rows[numbers[n]]), s.reader, numbers[n], row);
      assert f in DataTable.SnapshotRows(v, s, numbers);
    }
  }

  lemma PublishedRow(db: map<nat, Tuple>, slots: seq<nat>, rows: seq<Tuple>, slots': seq<nat>, rows': seq<Tuple>, m: nat)
    requires |slots| == |rows| && |slots'| == |rows'| && AllDistinct(slots) && AllDistinct(slots') && m < |slots| && slots[m] !in slots'
    ensures SpecRead(FilledView(db, slots, rows, slots', rows'), slots[m]) == Some(rows[m])
  {
    PlacedAt(slots, rows);
    PlacedAt(slots', rows');
  }

  /** The rows of the first table are among what a scan of it gives. */
  lemma FilledIsScanned(db: map<nat, Tuple>, slots: seq<nat>, rows: seq<Tuple>, slots': seq<nat>, rows': seq<Tuple>,
                        s: DataTable.Scene, m: nat)
    requires |slots| == |rows| && |slots'| == |rows'| && AllDistinct(slots) && AllDistinct(slots') && m < |slots| && slots[m] !in slots'
    requires |slots| <= |s.rows| && s.rows[|s.rows| - |slots| + m] == slots[m]
    ensures Finds(DataTable.SnapshotRows(FilledView(db, slots, rows, slots', rows'), s, DataTable.Range(0, |s.rows|)), rows[m])
  {
    var v := FilledView(db, slots, rows, slots', rows');
    PublishedRow(db, slots, rows, slots', rows', m);
    SnapshotHas(v, s, DataTable.Range(0, |s.rows|), |s.rows| - |slots| + m, rows[m]);
  }

  ghost predicate FindsAll(found: multiset<DataTable.Found>, rows: seq<Tuple>) {
    forall m :: 0 <= m < |rows| ==> Finds(found, rows[m])
  }

  lemma AllFilledAreScanned(db: map<nat, Tuple>, first: nat, rows: seq<Tuple>, rows': seq<Tuple>, s: DataTable.Scene, before: seq<nat>)
    requires s.rows == before + NewSlots(first, |rows|)
    ensures FindsAll(DataTable.SnapshotRows(FilledView(db, NewSlots(first, |rows|), rows, NewSlots(first + |rows|, |rows'|), rows'), s,
                                            DataTable.Range(0, |s.rows|)), rows)
  {
    var slots, slots' := NewSlots(first, |rows|), NewSlots(first + |rows|, |rows'|);
    forall m | 0 <= m < |rows|
      ensures Finds(DataTable.SnapshotRows(FilledView(db, slots, rows, slots', rows'), s, DataTable.Range(0, |s.rows|)), rows[m])
    {
      assert s.rows[|s.rows| - |slots| + m] == slots[m];
      FilledIsScanned(db, slots, rows, slots', rows', s, m);
    }
  }
}
