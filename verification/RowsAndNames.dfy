/** Rows and catalog names under one transaction manager: one history, in which every transaction sees both as of the same
  moment. */
module RowsAndNames {
  import opened Versions
  import opened Mvcc
  import opened Snapshot
  import opened Atomicity
  import opened Projection
  import opened TableStorage
  import opened Engine
  import opened Inserts
  import DB = Database
  import DataTable
  import C = Catalog
  import CS = CatalogSet
  import UB = UndoBuffer

  datatype Key = Row(slot: nat) | Entry(name: string)
  datatype Content = RowContent(row: Tuple) | EntryContent(value: CS.Value)

  type Event = Mvcc.Event<Key, Content>
  type Events = seq<Event>

  const Rows: Part<Key, Content, nat, Tuple> :=
    Part((k: Key) => if k.Row? then Some(k.slot) else None, (c: Content) => if c.RowContent? then c.row else [])

  const Names: Part<Key, Content, string, CS.Value> :=
    Part((k: Key) => if k.Entry? then Some(k.name) else None, (c: Content) => if c.EntryContent? then c.value else 0)

  function RowEvent(e: Mvcc.Event<nat, Tuple>): Event
    requires e.Write?
  {
    Write(e.id, Row(e.key), if e.value.None? then None else Some(RowContent(e.value.value)))
  }

  /** Writes to rows, as events of the one history. */
  function RowEvents(es: History): (events: Events)
    requires forall i :: 0 <= i < |es| ==> es[i].Write?
    ensures |events| == |es| && forall i :: 0 <= i < |es| ==> events[i] == RowEvent(es[i])
  {
    seq(|es|, i requires 0 <= i < |es| => RowEvent(es[i]))
  }

  lemma RowEventsIn(es: History)
    requires forall i :: 0 <= i < |es| ==> es[i].Write?
    ensures HistoryIn(Rows, RowEvents(es)) == es && HistoryIn(Names, RowEvents(es)) == []
  {
    HistoryAll(Rows, RowEvents(es), es);
    HistoryNone(Names, RowEvents(es));
  }

  /** Writes to rows belong to the rows, and to nothing else. */
  lemma RowEventsAreRows(h: Events, es: History)
    requires forall i :: 0 <= i < |es| ==> es[i].Write?
    ensures HistoryIn(Rows, h + RowEvents(es)) == HistoryIn(Rows, h) + es
    ensures HistoryIn(Names, h + RowEvents(es)) == HistoryIn(Names, h)
  {
    RowEventsIn(es);
    HistoryJoin(Rows, h, RowEvents(es));
    HistoryJoin(Names, h, RowEvents(es));
  }

  function NameEvent(id: nat, name: string, value: Option<CS.Value>): Event {
    Write(id, Entry(name), if value.None? then None else Some(EntryContent(value.value)))
  }

  lemma NameEventIsName(h: Events, id: nat, name: string, value: Option<CS.Value>)
    ensures HistoryIn(Names, h + [NameEvent(id, name, value)]) == HistoryIn(Names, h) + [Write(id, name, value)]
    ensures HistoryIn(Rows, h + [NameEvent(id, name, value)]) == HistoryIn(Rows, h)
  {
    HistoryPush(Names, h, NameEvent(id, name, value));
    HistoryPush(Rows, h, NameEvent(id, name, value));
  }

  /** The other events belong to both parts. */
  lemma SharedEvent(h: Events, e: Event)
    requires !Writes(e)
    ensures HistoryIn(Rows, h + [e]) == HistoryIn(Rows, h) + EventIn(Rows, e)
    ensures HistoryIn(Names, h + [e]) == HistoryIn(Names, h) + EventIn(Names, e)
  {
    HistoryPush(Rows, h, e);
    HistoryPush(Names, h, e);
  }

  /** Run(h), closed. */
  ghost function Led(h: Events, n: nat := CLOSED): State<Key, Content>
    decreases |h|, n
  {
    if n == 0 then Run(h) else Led(h, n - 1)
  }

  lemma {:induction false} LedIsRun(h: Events, n: nat := CLOSED)
    ensures Led(h, n) == Run(h)
    decreases n
  {
    if n > 0 { LedIsRun(h, n - 1); }
  }

  /** Both parts are where the one history has led. */
  lemma PartsAgree(h: Events)
    ensures Agree(Rows, Led(h), After(HistoryIn(Rows, h)))
    ensures Agree(Names, Led(h), Run(HistoryIn(Names, h)))
  {
    RunIn(Rows, h);
    RunIn(Names, h);
    AfterIsRun(HistoryIn(Rows, h));
    LedIsRun(h);
  }

  /** What a transaction reads of either part is what it reads in the one history. */
  lemma ReadsInOne<L(!new), U>(p: Part<Key, Content, L, U>, h: Events, t: State<L, U>, i: nat, k: Key)
    requires Agree(p, Led(h), t) && NoRewrites(h) && i < |Led(h).active| && p.key(k).Some?
    ensures i < |t.active| && t.active[i] == Led(h).active[i] && t.active[i].id in SpecRun(h).views
    ensures Visible(CellAt(t.cells, p.key(k).value), t.active[i].AsReader())
         == ContentIn(p, SpecRead(SpecRun(h).views[t.active[i].id], k))
  {
    LedIsRun(h);
    NoRewritesIsClean(h);
    SnapshotIsolation(h, i, k);
    assert AgreeOn(p, Led(h).cells, t.cells, k);
    VisibleIn(p, CellAt(Led(h).cells, k), t.active[i].AsReader());
  }

  /** The committer wrote the key, and since then neither another commit nor the reader has. */
  ghost predicate Stays(es: Events, id: nat, later: Events, reader: nat, k: Key) {
    && id in SpecRun(es).views && k in SpecRun(es).views[id].mine
    && NotRecommitted(es + [Mvcc.Event.Commit(id)], later, k)
    && !OwnedBy(CellAt(Run(es + [Mvcc.Event.Commit(id)] + later).cells, k), reader)
  }

  function IdsOf(ts: seq<Transaction>): (ids: seq<nat>)
    ensures |ids| == |ts| && forall i :: 0 <= i < |ids| ==> ids[i] == ts[i].commitId
  {
    seq(|ts|, i requires 0 <= i < |ts| => ts[i].commitId)
  }

  ghost predicate AreIds(ids: seq<nat>, recent: seq<Committed>) {
    |ids| == |recent| && forall i :: 0 <= i < |ids| ==> ids[i] == recent[i].commitId
  }

  /** What the manager has taken off its list is what the catalog has to clean up. */
  lemma ExpiredByCommit(s: State<nat, Tuple>, t: C.CatalogState, id: nat, ids: seq<nat>)
    requires t.clock == s.clock && t.active == s.active && t.recent == s.recent && IsActive(s, id) && 0 < s.clock
    requires AreIds(ids, s.recent)
    ensures |CommitStep(s, id).recent| <= |ids| + 1
    ensures (ids + [s.clock])[..|ids| + 1 - |CommitStep(s, id).recent|] == C.ExpiredIds(C.Stamped(t, id))
  {
    var stamped := C.Stamped(t, id);
    assert stamped.recent == s.recent + [Committed(id, s.clock)];
    assert AreIds(ids + [s.clock], stamped.recent);
  }

  lemma ExpiredByRollback(s: State<nat, Tuple>, t: C.CatalogState, id: nat, ids: seq<nat>)
    requires t.active == s.active && t.recent == s.recent && IsActive(s, id)
    requires AreIds(ids, s.recent)
    ensures |RollbackStep(s, id).recent| <= |ids|
    ensures ids[..|ids| - |RollbackStep(s, id).recent|] == C.ExpiredIds(C.Reverted(t, id))
  {
    assert C.Reverted(t, id).recent == s.recent;
  }

  lemma CommitterKnown(es: Events, later: Events, id: nat)
    requires IsActive(Run(es), id) && NoRewrites(es + later)
    ensures id in SpecRun(es).views
  {
    assert forall i :: 0 <= i < |es| ==> es[i] == (es + later)[i];
    NoRewritesIsClean(es);
    SnapshotIsolation(es, IndexOf(Run(es).active, id), Row(0));
  }

  /** What a commit wrote to a key of a part is read there. */
  lemma WrittenIsRead<L(!new), U>(p: Part<Key, Content, L, U>, es: Events, id: nat, later: Events, t: State<L, U>, i: nat, k: Key)
    requires Enabled(Run(es), Mvcc.Event.Commit(id)) && NoRewrites(es + [Mvcc.Event.Commit(id)] + later)
    requires Agree(p, Run(es + [Mvcc.Event.Commit(id)] + later), t) && p.key(k).Some?
    requires i < |Run(es + [Mvcc.Event.Commit(id)] + later).active|
    requires Run(es + [Mvcc.Event.Commit(id)]).nextId <= Run(es + [Mvcc.Event.Commit(id)] + later).active[i].id
    requires Stays(es, id, later, Run(es + [Mvcc.Event.Commit(id)] + later).active[i].id, k)
    ensures Visible(CellAt(t.cells, p.key(k).value), Run(es + [Mvcc.Event.Commit(id)] + later).active[i].AsReader())
         == ContentIn(p, SpecRun(es).views[id].mine[k])
  {
    var h := es + [Mvcc.Event.Commit(id)] + later;
    NoRewritesIsClean(h);
    CommitAppearsWhole(es, id, later, i, k);
    assert AgreeOn(p, Run(h).cells, t.cells, k);
    VisibleIn(p, CellAt(Run(h).cells, k), Run(h).active[i].AsReader());
  }

  class Instance {
    const database: DB.Database
    const catalog: C.Catalog
    ghost var history: Events

    ghost predicate Valid()
      reads this, database.Parts(), catalog, catalog.entries
    {
      && database.Valid() && catalog.Valid() && NoRewrites(history)
      && database.engine.history == HistoryIn(Rows, history)
      && catalog.history == HistoryIn(Names, history)
    }

    constructor (database: DB.Database, catalog: C.Catalog)
      requires database.Valid() && database.engine.history == [] && catalog.Valid() && catalog.history == []
      ensures Valid() && history == [] && this.database == database && this.catalog == catalog
    {
      this.database, this.catalog, history := database, catalog, [];
      new;
      Separate();
    }

    /** The tables are objects of their own. */
    lemma Separate()
      ensures {this, catalog, catalog.entries} !! database.Parts()
    {
    }

    lemma InOneState()
      requires Valid()
      ensures Agree(Rows, Led(history), After(database.engine.history))
      ensures Agree(Names, Led(history), catalog.state)
    {
      PartsAgree(history);
      C.LeadsIs(catalog.history, catalog.state);
    }

    /** Both parts have gone on by an event. */
    ghost method Happened(e: Event)
      requires database.Valid() && catalog.Valid() && NoRewrites(history) && !Writes(e)
      requires database.engine.history == HistoryIn(Rows, history) + EventIn(Rows, e)
      requires catalog.history == HistoryIn(Names, history) + EventIn(Names, e)
      modifies this`history
      ensures Valid() && history == old(history) + [e]
    {
      Separate();
      SharedEvent(history, e);
      history := history + [e];
    }

    // ----- transactions -----

    method StartInCatalog(started: bool, id: nat)
      requires database.Valid() && catalog.Valid()
      requires started == Enabled(catalog.state, Begin) && id == catalog.state.nextId
      modifies catalog
      ensures database.Valid() && catalog.Valid() && catalog.history == old(catalog.history) + [Begin]
    {
      Separate();
      if started {
        catalog.Start(id);
      } else {
        catalog.StartRefused();
      }
    }

    method Start() returns (started: bool, id: nat)
      requires Valid()
      modifies this`history, database.engine, catalog
      ensures Valid() && history == old(history) + [Begin]
      ensures started == Enabled(Led(old(history)), Begin) && id == Led(old(history)).nextId
    {
      InOneState();
      started, id := database.Start();
      StartInCatalog(started, id);
      Happened(Begin);
    }

    /** The engine's lists are those of the one history. */
    lemma ListsShow()
      requires Valid()
      ensures SameTransactions(Led(history), After(database.engine.history)) && SameTransactions(Led(history), catalog.state)
      ensures Inv(After(database.engine.history)) && catalog.state == Run(catalog.history)
      ensures database.engine.ShowsTransactions(After(database.engine.history))
      ensures AreIds(IdsOf(database.engine.recentlyCommitted), After(database.engine.history).recent)
    {
      InOneState();
      C.LeadsIs(catalog.history, catalog.state);
      AfterInv(database.engine.history);
      database.TransactionsShow();
    }

    method CommitInCatalog(id: nat, commitId: nat, expired: seq<nat>)
      requires database.Valid() && catalog.Valid()
      requires Enabled(catalog.state, Mvcc.Event.Commit(id)) && commitId == catalog.state.clock
      requires expired == C.ExpiredIds(C.Stamped(catalog.state, id))
      modifies catalog, catalog.entries
      ensures database.Valid() && catalog.Valid() && catalog.history == old(catalog.history) + [Mvcc.Event.Commit(id)]
    {
      Separate();
      catalog.Commit(id, commitId, expired);
    }

    method CommitRows(id: nat) returns (log: seq<UB.LogRecord>, commitId: nat, expired: seq<nat>)
      requires Valid() && Enabled(Led(history), Mvcc.Event.Commit(id)) && IsActive(catalog.state, id)
      modifies database.engine, database.engine.storage
      ensures database.Valid() && catalog.Valid()
      ensures database.engine.history == old(database.engine.history) + [Mvcc.Event.Commit(id)]
      ensures UB.WellSized(log) && UB.OneFlush(log)
      ensures forall t :: UB.LogItems(log, t) == UB.Story(old(database.engine.StoryOf(id)), t)
      ensures commitId == catalog.state.clock && expired == C.ExpiredIds(C.Stamped(catalog.state, id))
    {
      ListsShow();
      ghost var s := After(database.engine.history);
      ghost var ids := IdsOf(database.engine.recentlyCommitted);
      commitId, expired := database.engine.currentStartTimestamp, IdsOf(database.engine.recentlyCommitted);
      ExpiredByCommit(s, catalog.state, id, ids);
      Separate();
      log := database.Commit(id);
      database.TransactionsShow();
      AfterCommit(old(database.engine.history), id);
      expired := (expired + [commitId])[..|expired| + 1 - |database.engine.recentlyCommitted|];
    }

    /** Commits rows and names alike, with one time stamp. */
    method Commit(id: nat) returns (log: seq<UB.LogRecord>)
      requires Valid() && Enabled(Led(history), Mvcc.Event.Commit(id))
      modifies this`history, database.engine, database.engine.storage, catalog, catalog.entries
      ensures Valid() && history == old(history) + [Mvcc.Event.Commit(id)]
      ensures UB.WellSized(log) && UB.OneFlush(log)
      ensures forall t :: UB.LogItems(log, t) == UB.Story(old(database.engine.StoryOf(id)), t)
    {
      ListsShow();
      var commitId, expired;
      log, commitId, expired := CommitRows(id);
      CommitInCatalog(id, commitId, expired);
      Happened(Mvcc.Event.Commit(id));
    }

    method RollbackInCatalog(id: nat, expired: seq<nat>)
      requires database.Valid() && catalog.Valid()
      requires IsActive(catalog.state, id) && expired == C.ExpiredIds(C.Reverted(catalog.state, id))
      modifies catalog, catalog.entries
      ensures database.Valid() && catalog.Valid() && catalog.history == old(catalog.history) + [Mvcc.Event.Rollback(id)]
    {
      Separate();
      catalog.Rollback(id, expired);
    }

    method RollbackRows(id: nat) returns (expired: seq<nat>)
      requires Valid() && IsActive(Led(history), id) && IsActive(catalog.state, id)
      modifies database.engine, database.engine.storage
      ensures database.Valid() && catalog.Valid()
      ensures database.engine.history == old(database.engine.history) + [Mvcc.Event.Rollback(id)]
      ensures expired == C.ExpiredIds(C.Reverted(catalog.state, id))
    {
      ListsShow();
      ghost var s := After(database.engine.history);
      expired := IdsOf(database.engine.recentlyCommitted);
      ExpiredByRollback(s, catalog.state, id, expired);
      Separate();
      database.Rollback(id);
      database.TransactionsShow();
      AfterRollback(old(database.engine.history), id);
      expired := expired[..|expired| - |database.engine.recentlyCommitted|];
    }

    /** Rolls back rows and names alike. */
    method Rollback(id: nat)
      requires Valid() && IsActive(Led(history), id)
      modifies this`history, database.engine, database.engine.storage, catalog, catalog.entries
      ensures Valid() && history == old(history) + [Mvcc.Event.Rollback(id)]
    {
      ListsShow();
      var expired := RollbackRows(id);
      RollbackInCatalog(id, expired);
      Happened(Mvcc.Event.Rollback(id));
    }

    ghost method QueryInCatalog(e: C.CatalogEvent)
      requires database.Valid() && catalog.Valid() && (e.BeginQuery? || e.EndQuery?)
      modifies catalog
      ensures database.Valid() && catalog.Valid() && catalog.history == old(catalog.history) + [e]
    {
      Separate();
      catalog.QueryEvent(e);
    }

    method BeginQuery(id: nat)
      requires Valid() && Enabled(Led(history), Mvcc.Event.BeginQuery(id))
      modifies this`history, database.engine, catalog
      ensures Valid() && history == old(history) + [Mvcc.Event.BeginQuery(id)]
    {
      ListsShow();
      database.BeginQuery(id);
      QueryInCatalog(Mvcc.Event.BeginQuery(id));
      Happened(Mvcc.Event.BeginQuery(id));
    }

    method EndQuery(id: nat)
      requires Valid() && IsActive(Led(history), id)
      modifies this`history, database.engine, catalog
      ensures Valid() && history == old(history) + [Mvcc.Event.EndQuery(id)]
    {
      ListsShow();
      database.EndQuery(id);
      QueryInCatalog(Mvcc.Event.EndQuery(id));
      Happened(Mvcc.Event.EndQuery(id));
    }

    // ----- writes -----

    /** What any operation of the database has written to rows joins the one history. */
    ghost method RowsWritten(es: History)
      requires database.Valid() && catalog.Valid() && NoRewrites(history) && catalog.history == HistoryIn(Names, history)
      requires forall i :: 0 <= i < |es| ==> es[i].Write?
      requires database.engine.history == HistoryIn(Rows, history) + es
      modifies this`history
      ensures Valid() && history == old(history) + RowEvents(es)
    {
      Separate();
      RowEventsAreRows(history, es);
      history := history + RowEvents(es);
    }

    method Append(j: nat, id: nat, rows: seq<Tuple>)
      requires Valid() && j < |database.tables| && IsActive(Led(history), id) && |rows| <= STANDARD_VECTOR_SIZE
      modifies this`history, database.tables[j], database.engine, database.engine.storage
      ensures Valid()
      ensures var slots := NewSlots(|old(database.engine.storage.chains)|, |rows|);
        && history == old(history) + RowEvents(WriteEvents(id, slots, Somes(rows)))
        && DataTable.Rows(database.tables[j].chunks) == old(DataTable.Rows(database.tables[j].chunks)) + slots
    {
      ListsShow();
      Separate();
      ghost var slots := NewSlots(|database.engine.storage.chains|, |rows|);
      database.Append(j, id, rows);
      RowsWritten(WriteEvents(id, slots, Somes(rows)));
    }

    /** A create or drop that was accepted joins the one history. */
    ghost method NameWritten(id: nat, name: string, value: Option<CS.Value>)
      requires database.Valid() && catalog.Valid() && NoRewrites(history) && database.engine.history == HistoryIn(Rows, history)
      requires catalog.history == HistoryIn(Names, history) + [Write(id, name, value)]
      modifies this`history
      ensures Valid() && history == old(history) + [NameEvent(id, name, value)]
    {
      Separate();
      NameEventIsName(history, id, name, value);
      history := history + [NameEvent(id, name, value)];
    }

    /** What the catalog knows of a name, in the one history. */
    lemma NameShows(name: string)
      requires Valid()
      ensures CellAt(catalog.state.cells, name) == CellIn(Names, CellAt(Led(history).cells, Entry(name)))
    {
      InOneState();
      assert AgreeOn(Names, Led(history).cells, catalog.state.cells, Entry(name));
    }

    method CreateInCatalog(id: nat, name: string, value: CS.Value) returns (outcome: CS.Outcome)
      requires catalog.Valid() && IsActive(catalog.state, id)
      modifies catalog, catalog.entries
      ensures catalog.Valid()
      ensures var c := CellAt(old(catalog.state).cells, name);
        outcome == if Conflicts(c, id) then CS.Conflict else if c.cur.Some? then CS.Refused else CS.Accepted
      ensures catalog.history == old(catalog.history) + if outcome.Accepted? then [Write(id, name, Some(value))] else []
    {
      outcome := catalog.Create(id, name, value);
    }

    method DropInCatalog(id: nat, name: string) returns (outcome: CS.Outcome, ghost erased: bool)
      requires catalog.Valid() && IsActive(catalog.state, id) && name in catalog.entries.data
      modifies catalog, catalog.entries
      ensures catalog.Valid()
      ensures var c := CellAt(old(catalog.state).cells, name);
        && outcome == (if Conflicts(c, id) then CS.Conflict else CS.Accepted) && erased == (outcome.Accepted? && c.cur.Some?)
      ensures catalog.history == old(catalog.history) + if erased then [Write(id, name, None)] else []
    {
      erased := CellAt(catalog.state.cells, name).cur.Some?;
      outcome := catalog.Drop(id, name);
      erased := erased && outcome.Accepted?;
    }

    method Create(id: nat, name: string, value: CS.Value) returns (outcome: CS.Outcome)
      requires Valid() && IsActive(Led(history), id)
      modifies this`history, catalog, catalog.entries
      ensures Valid()
      ensures var c := CellAt(Led(old(history)).cells, Entry(name));
        outcome == if Conflicts(c, id) then CS.Conflict else if c.cur.Some? then CS.Refused else CS.Accepted
      ensures history == old(history) + if outcome.Accepted? then [NameEvent(id, name, Some(value))] else []
    {
      ListsShow();
      NameShows(name);
      Separate();
      outcome := CreateInCatalog(id, name, value);
      if outcome.Accepted? {
        NameWritten(id, name, Some(value));
      }
    }

    method DropBeside(id: nat, name: string) returns (outcome: CS.Outcome, ghost erased: bool)
      requires database.Valid() && catalog.Valid() && IsActive(catalog.state, id) && name in catalog.entries.data
      modifies catalog, catalog.entries
      ensures database.Valid() && catalog.Valid()
      ensures var c := CellAt(old(catalog.state).cells, name);
        && outcome == (if Conflicts(c, id) then CS.Conflict else CS.Accepted) && erased == (outcome.Accepted? && c.cur.Some?)
      ensures catalog.history == old(catalog.history) + if erased then [Write(id, name, None)] else []
    {
      Separate();
      outcome, erased := DropInCatalog(id, name);
    }

    method Drop(id: nat, name: string) returns (outcome: CS.Outcome)
      requires Valid() && IsActive(Led(history), id) && name in catalog.entries.data
      modifies this`history, catalog, catalog.entries
      ensures Valid()
      ensures var c := CellAt(Led(old(history)).cells, Entry(name));
        && outcome == (if Conflicts(c, id) then CS.Conflict else CS.Accepted)
        && history == old(history) + if outcome.Accepted? && c.cur.Some? then [NameEvent(id, name, None)] else []
    {
      ListsShow();
      NameShows(name);
      ghost var erased;
      outcome, erased := DropBeside(id, name);
      if erased {
        NameWritten(id, name, None);
      }
    }

    // ----- reads -----

    /** A lookup reads the name in the transaction's view of the one history. */
    method Get(id: nat, start: nat, name: string) returns (entry: Option<CS.Value>)
      requires Valid() && IsActive(Led(history), id) && start == Led(history).active[IndexOf(Led(history).active, id)].start
      ensures id in SpecRun(history).views && entry == ContentIn(Names, SpecRead(SpecRun(history).views[id], Entry(name)))
    {
      ListsShow();
      InOneState();
      ghost var i := IndexOf(Led(history).active, id);
      entry := catalog.Get(id, start, name);
      catalog.LookupIsSnapshot(i, name);
      ReadsInOne(Names, history, catalog.state, i, Entry(name));
    }

    /** A row is read in the same view. */
    method ReadRow(id: nat, slot: nat) returns (row: Option<Tuple>)
      requires Valid() && IsActive(Led(history), id) && slot in After(database.engine.history).cells
      ensures id in SpecRun(history).views && row == ContentIn(Rows, SpecRead(SpecRun(history).views[id], Row(slot)))
    {
      ListsShow();
      InOneState();
      database.SlotsShow();
      var inBase;
      row, inBase := database.engine.ReadRow(id, slot);
      ReadsInOne(Rows, history, After(database.engine.history), IndexOf(Led(history).active, id), Row(slot));
    }

    /** Whoever starts after a commit sees everything that it wrote, rows and names together: of each the last write, until
        another commit or the reader itself writes it again. */
    lemma CommittedTogether(es: Events, id: nat, later: Events, i: nat)
      requires Valid() && history == es + [Mvcc.Event.Commit(id)] + later && Enabled(Run(es), Mvcc.Event.Commit(id))
      requires i < |Run(history).active| && Run(es + [Mvcc.Event.Commit(id)]).nextId <= Run(history).active[i].id
      ensures id in SpecRun(es).views
      ensures forall slot :: Stays(es, id, later, Run(history).active[i].id, Row(slot)) ==>
        Visible(CellAt(After(database.engine.history).cells, slot), Run(history).active[i].AsReader())
          == ContentIn(Rows, SpecRun(es).views[id].mine[Row(slot)])
      ensures forall name :: Stays(es, id, later, Run(history).active[i].id, Entry(name)) ==>
        Visible(catalog.entries.CellOf(name), Run(history).active[i].AsReader())
          == ContentIn(Names, SpecRun(es).views[id].mine[Entry(name)])
    {
      InOneState();
      LedIsRun(history);
      JoinAssociates(es, [Mvcc.Event.Commit(id)], later);
      CommitterKnown(es, [Mvcc.Event.Commit(id)] + later, id);
      forall slot | Stays(es, id, later, Run(history).active[i].id, Row(slot))
        ensures Visible(CellAt(After(database.engine.history).cells, slot), Run(history).active[i].AsReader())
             == ContentIn(Rows, SpecRun(es).views[id].mine[Row(slot)])
      {
        WrittenIsRead(Rows, es, id, later, After(database.engine.history), i, Row(slot));
      }
      forall name | Stays(es, id, later, Run(history).active[i].id, Entry(name))
        ensures Visible(catalog.entries.CellOf(name), Run(history).active[i].AsReader())
             == ContentIn(Names, SpecRun(es).views[id].mine[Entry(name)])
      {
        WrittenIsRead(Names, es, id, later, catalog.state, i, Entry(name));
      }
    }
  }
}
