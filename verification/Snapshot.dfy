/** Snapshot isolation: the reference machine and the proof that the version chains refine it.

  The reference machine has no chains.  It keeps the committed contents, and for every running
  transaction a copy of them taken at its start together with the transaction's own writes. */
module Snapshot {
  import opened Versions
  import opened Mvcc

  datatype View<K, T> = View(snap: map<K, T>, mine: map<K, Option<T>>)

  datatype Spec<K, T> = Spec(db: map<K, T>, views: map<nat, View<K, T>>)

  function Lookup<K, T>(db: map<K, T>, k: K): Option<T> {
    if k in db then Some(db[k]) else None
  }

  /** A transaction reads its own last write, or else the contents committed when it started. */
  function SpecRead<K, T>(v: View<K, T>, k: K): Option<T> {
    if k in v.mine then v.mine[k] else Lookup(v.snap, k)
  }

  function Publish<K, T>(db: map<K, T>, mine: map<K, Option<T>>): map<K, T> {
    map k | k in db.Keys + mine.Keys && (k in mine ==> mine[k].Some?) :: if k in mine then mine[k].value else db[k]
  }

  function SpecInit<K, T>(): Spec<K, T> { Spec(map[], map[]) }

  /** The reference step; `ok` says whether the engine accepted the event. */
  function SpecApply<K, T>(a: Spec<K, T>, e: Event<K, T>, ok: bool, nextId: nat): Spec<K, T> {
    if !ok then a else
    match e
    case Begin => a.(views := a.views[nextId := View(a.db, map[])])
    case Write(id, k, v) =>
      if id in a.views then a.(views := a.views[id := a.views[id].(mine := a.views[id].mine[k := v])]) else a
    case Rewrite(id, k, _, v) =>
      if id in a.views then a.(views := a.views[id := a.views[id].(mine := a.views[id].mine[k := v])]) else a
    case Commit(id) =>
      if id in a.views then Spec(Publish(a.db, a.views[id].mine), a.views - {id}) else a
    case Rollback(id) => a.(views := a.views - {id})
    case BeginQuery(id) => a
    case EndQuery(id) => a
  }

  function SpecRun<K, T>(es: seq<Event<K, T>>): Spec<K, T> {
    if es == [] then SpecInit() else
    var s, e := Run(es[..|es| - 1]), es[|es| - 1];
    SpecApply(SpecRun(es[..|es| - 1]), e, Enabled(s, e), s.nextId)
  }

  /** What the engine reads for a transaction: the chain walk of a scan or of a catalog lookup. */
  function Read<K, T>(s: State<K, T>, t: Active, k: K): Option<T> {
    Visible(CellAt(s.cells, k), t.AsReader())
  }

  /** A deleted row may be written again by the transaction that deleted it.  When its deletion has been committed, the
      undo record brings the old data back. */
  ghost predicate Harmless<K, T>(s: State<K, T>, e: Event<K, T>) {
    e.Rewrite? && Enabled(s, e) ==> OwnedBy(CellAt(s.cells, e.key), e.id)
  }

  ghost predicate Clean<K, T>(es: seq<Event<K, T>>) {
    es == [] || (Clean(es[..|es| - 1]) && Harmless(Run(es[..|es| - 1]), es[|es| - 1]))
  }

  ghost predicate RefinesAt<K, T>(s: State<K, T>, a: Spec<K, T>, k: K) {
    && Lookup(a.db, k) == CommittedValue(CellAt(s.cells, k))
    && forall i :: 0 <= i < |s.active| ==>
         && s.active[i].id in a.views
         && Read(s, s.active[i], k) == SpecRead(a.views[s.active[i].id], k)
         && (k in a.views[s.active[i].id].mine <==> OwnedBy(CellAt(s.cells, k), s.active[i].id))
  }

  ghost predicate Refines<K(!new), T>(s: State<K, T>, a: Spec<K, T>) {
    forall k: K :: RefinesAt(s, a, k)
  }

  lemma InvCellAt<K, T>(s: State<K, T>, k: K)
    requires Inv(s)
    ensures InvCell(CellAt(s.cells, k), s.active, s.recent)
  {
  }

  lemma BeginRefines<K, T>(s: State<K, T>, a: Spec<K, T>, k: K)
    requires Inv(s) && RefinesAt(s, a, k) && Enabled(s, Begin)
    ensures RefinesAt(Apply(s, Begin), SpecApply(a, Begin, true, s.nextId), k)
  {
    InvCellAt(s, k);
    var c := CellAt(s.cells, k);
    var r := Reader(s.nextId, s.clock);
    forall i | 0 <= i < |c.undo|
      ensures Sees(r, c.undo[i].stamp) <==> !Uncommitted(c.undo[i].stamp)
      ensures c.undo[i].stamp != s.nextId
    {
      assert Listed(s.active, s.recent, c.undo[i].stamp);
    }
    FreshReads(c, r);
  }

  lemma WriteRefines<K, T>(s: State<K, T>, a: Spec<K, T>, id: nat, key: K, v: Option<T>, k: K)
    requires Inv(s) && RefinesAt(s, a, k) && Enabled(s, Write(id, key, v))
    ensures RefinesAt(Apply(s, Write(id, key, v)), SpecApply(a, Write(id, key, v), true, s.nextId), k)
  {
    var c := CellAt(s.cells, k);
    OverwriteCommitted(c, id, v);
    forall i | 0 <= i < |s.active| ensures Sees(s.active[i].AsReader(), id) <==> s.active[i].id == id {}
    forall i | 0 <= i < |s.active| {
      OverwriteReads(c, id, v, s.active[i].AsReader());
    }
  }

  lemma RewriteRefines<K, T>(s: State<K, T>, a: Spec<K, T>, e: Event<K, T>, k: K)
    requires Inv(s) && RefinesAt(s, a, k) && e.Rewrite? && Enabled(s, e) && Harmless(s, e)
    ensures RefinesAt(Apply(s, e), SpecApply(a, e, true, s.nextId), k)
  {
    var c := CellAt(s.cells, k);
    assert s.active[IndexOf(s.active, e.id)].id == e.id;
    TouchedCommitted(c, e.data, e.id, e.value);
    forall i | 0 <= i < |s.active| ensures Sees(s.active[i].AsReader(), e.id) <==> s.active[i].id == e.id {}
    forall i | 0 <= i < |s.active| {
      TouchedReads(c, e.data, e.id, e.value, s.active[i].AsReader());
    }
  }

  lemma CollectRefines<K, T>(s: State<K, T>, a: Spec<K, T>, k: K)
    requires Inv(s) && RefinesAt(s, a, k)
    ensures RefinesAt(Collect(s), a, k)
  {
    InvCellAt(s, k);
    var c, floor := CellAt(s.cells, k), LowestStart(s.active);
    LowestStartIsMin(s.active);
    assert CellAt(Collect(s).cells, k) == Purge(c, floor);
    PurgeCommitted(c, floor);
    PurgeShape(c, floor);
    KeepIsPrefix(c.undo, floor);
    forall i | 0 <= i < |s.active| {
      PurgeReads(c, floor, s.active[i].AsReader());
    }
  }

  /** After a commit the committed contents are the reference contents with the writes published. */
  lemma CommitPublishes<K, T>(s: State<K, T>, a: Spec<K, T>, id: nat, k: K)
    requires Inv(s) && RefinesAt(s, a, k) && Enabled(s, Commit(id))
    ensures CommittedValue(Restamp(CellAt(s.cells, k), id, s.clock)) == Lookup(Publish(a.db, a.views[id].mine), k)
  {
    InvCellAt(s, k);
    RestampCommitted(CellAt(s.cells, k), id, s.clock);
    assert s.active[IndexOf(s.active, id)].id == id;
  }

  lemma CommitKeepsReads<T>(c: Cell<T>, id: nat, commitId: nat, other: Active)
    requires id != other.id && other.start < commitId < TRANSACTION_ID_START <= id
    requires TRANSACTION_ID_START <= other.id
    ensures Visible(Restamp(c, id, commitId), other.AsReader()) == Visible(c, other.AsReader())
    ensures OwnedBy(Restamp(c, id, commitId), other.id) <==> OwnedBy(c, other.id)
  {
    RestampReads(c, id, commitId, other.AsReader());
  }

  lemma CommitRefines<K, T>(s: State<K, T>, a: Spec<K, T>, id: nat, k: K)
    requires Inv(s) && RefinesAt(s, a, k) && Enabled(s, Commit(id))
    ensures RefinesAt(Apply(s, Commit(id)), SpecApply(a, Commit(id), true, s.nextId), k)
  {
    var i, c := IndexOf(s.active, id), CellAt(s.cells, k);
    var t := Unlist(s.(clock := s.clock + 1, cells := MapRestamp(s.cells, id, s.clock)), i, s.clock);
    assert s.active[i].id == id;
    assert CellAt(t.cells, k) == Restamp(c, id, s.clock);
    CommitPublishes(s, a, id, k);
    WithoutAt(s.active, i);
    forall j | 0 <= j < |t.active|
      ensures t.active[j].id in a.views && t.active[j].id != id
      ensures Read(t, t.active[j], k) == SpecRead(a.views[t.active[j].id], k)
      ensures k in a.views[t.active[j].id].mine <==> OwnedBy(CellAt(t.cells, k), t.active[j].id)
    {
      CommitKeepsReads(c, id, s.clock, t.active[j]);
    }
    CommitKeepsUnlisted(s, id);
    CollectRefines(t, SpecApply(a, Commit(id), true, s.nextId), k);
  }

  lemma RollbackKeepsReads<T>(c: Cell<T>, id: nat, other: Active)
    requires WellFormed(c) && Uncommitted(id) && Uncommitted(other.id) && other.id != id && other.start <= TRANSACTION_ID_START
    ensures Visible(Revert(c, id), other.AsReader()) == Visible(c, other.AsReader())
    ensures OwnedBy(Revert(c, id), other.id) <==> OwnedBy(c, other.id)
  {
    RevertReads(c, id, other.AsReader());
    RevertKeepsOwner(c, id, other.id);
  }

  /** What the other transactions see of a key after a rollback. */
  lemma RollbackKeepsView<K, T>(s: State<K, T>, a: Spec<K, T>, id: nat, k: K, m: nat)
    requires Inv(s) && RefinesAt(s, a, k) && IsActive(s, id) && m < |s.active| && m != IndexOf(s.active, id)
    ensures var other, c := s.active[m], Revert(CellAt(s.cells, k), id);
      && other.id in a.views && other.id != id
      && Visible(c, other.AsReader()) == SpecRead(a.views[other.id], k)
      && (k in a.views[other.id].mine <==> OwnedBy(c, other.id))
  {
    InvCellAt(s, k);
    assert s.active[IndexOf(s.active, id)].id == id;
    RollbackKeepsReads(CellAt(s.cells, k), id, s.active[m]);
  }

  lemma RevertAt<K, T>(cells: map<K, Cell<T>>, id: nat, k: K)
    ensures CellAt(MapRevert(cells, id), k) == Revert(CellAt(cells, k), id)
  {
  }

  lemma RollbackRefinesUnlisted<K, T>(s: State<K, T>, a: Spec<K, T>, id: nat, k: K)
    requires Inv(s) && RefinesAt(s, a, k) && IsActive(s, id)
    ensures RefinesAt(Unlist(s.(cells := MapRevert(s.cells, id)), IndexOf(s.active, id), 0), a.(views := a.views - {id}), k)
  {
    var i := IndexOf(s.active, id);
    var t := Unlist(s.(cells := MapRevert(s.cells, id)), i, 0);
    assert s.active[i].id == id;
    RevertAt(s.cells, id, k);
    RevertCommitted(CellAt(s.cells, k), id);
    WithoutAt(s.active, i);
    forall j | 0 <= j < |t.active| ensures
      && t.active[j].id in a.views - {id}
      && Read(t, t.active[j], k) == SpecRead(a.views[t.active[j].id], k)
      && (k in a.views[t.active[j].id].mine <==> OwnedBy(CellAt(t.cells, k), t.active[j].id))
    {
      RollbackKeepsView(s, a, id, k, if j < i then j else j + 1);
    }
  }

  lemma RollbackRefines<K, T>(s: State<K, T>, a: Spec<K, T>, id: nat, k: K)
    requires Inv(s) && RefinesAt(s, a, k) && IsActive(s, id)
    ensures RefinesAt(Apply(s, Rollback(id)), SpecApply(a, Rollback(id), true, s.nextId), k)
  {
    RollbackKeepsUnlisted(s, id);
    RollbackRefinesUnlisted(s, a, id, k);
    CollectRefines(Unlist(s.(cells := MapRevert(s.cells, id)), IndexOf(s.active, id), 0), a.(views := a.views - {id}), k);
  }

  lemma SetQueryRefines<K, T>(s: State<K, T>, a: Spec<K, T>, id: nat, q: nat, nextQuery: nat, k: K)
    requires RefinesAt(s, a, k) && IsActive(s, id)
    ensures RefinesAt(SetQuery(s, id, q).(nextQuery := nextQuery), a, k)
  {
    var t := SetQuery(s, id, q).(nextQuery := nextQuery);
    assert forall i :: 0 <= i < |t.active| ==> t.active[i].AsReader() == s.active[i].AsReader() && t.active[i].id == s.active[i].id;
  }

  lemma StepRefines<K, T>(s: State<K, T>, a: Spec<K, T>, e: Event<K, T>, k: K)
    requires Inv(s) && RefinesAt(s, a, k) && Harmless(s, e)
    ensures RefinesAt(Apply(s, e), SpecApply(a, e, Enabled(s, e), s.nextId), k)
  {
    if Enabled(s, e) {
      match e
      case Begin => BeginRefines(s, a, k);
      case Write(id, key, v) => WriteRefines(s, a, id, key, v, k);
      case Rewrite(_, _, _, _) => RewriteRefines(s, a, e, k);
      case Commit(id) => CommitRefines(s, a, id, k);
      case Rollback(id) => RollbackRefines(s, a, id, k);
      case BeginQuery(id) => SetQueryRefines(s, a, id, s.nextQuery, s.nextQuery + 1, k);
      case EndQuery(id) => SetQueryRefines(s, a, id, MAXIMUM_QUERY_ID, s.nextQuery, k);
    }
  }

  lemma {:induction false} RunRefines<K(!new), T>(es: seq<Event<K, T>>)
    requires Clean(es)
    ensures Refines(Run(es), SpecRun(es))
  {
    if es != [] {
      var before := es[..|es| - 1];
      RunRefines(before);
      RunKeepsInv(before);
      forall k: K ensures RefinesAt(Run(es), SpecRun(es), k) {
        assert RefinesAt(Run(before), SpecRun(before), k);
        StepRefines(Run(before), SpecRun(before), es[|es| - 1], k);
      }
    }
  }

  /** Snapshot isolation over every run of every number of transactions. */
  lemma SnapshotIsolation<K(!new), T>(es: seq<Event<K, T>>, i: nat, k: K)
    requires Clean(es) && i < |Run(es).active|
    ensures Run(es).active[i].id in SpecRun(es).views
    ensures Read(Run(es), Run(es).active[i], k) == SpecRead(SpecRun(es).views[Run(es).active[i].id], k)
  {
    RunRefines(es);
    assert RefinesAt(Run(es), SpecRun(es), k);
  }

  // ----- exactly when it holds -----

  /** Writing a deleted row again brings its old data back for everybody who saw the deletion, at once. */
  lemma HarmBreaks<K(!new), T>(s: State<K, T>, a: Spec<K, T>, e: Event<K, T>)
    requires Inv(s) && Refines(s, a) && !Harmless(s, e)
    ensures !Refines(Apply(s, e), SpecApply(a, e, true, s.nextId))
  {
    var c := CellAt(s.cells, e.key);
    assert s.active[IndexOf(s.active, e.id)].id == e.id;
    TouchedCommitted(c, e.data, e.id, e.value);
    assert RefinesAt(s, a, e.key) && CommittedValue(c) == None;
    assert !RefinesAt(Apply(s, e), SpecApply(a, e, true, s.nextId), e.key);
  }

  /** The reference machine is followed at every step of a run exactly when the run is clean. */
  ghost predicate RefinesThroughout<K(!new), T>(es: seq<Event<K, T>>) {
    Refines(Run(es), SpecRun(es)) && (es == [] || RefinesThroughout(es[..|es| - 1]))
  }

  lemma {:induction false} CleanExactlyRefines<K(!new), T>(es: seq<Event<K, T>>)
    ensures RefinesThroughout(es) <==> Clean(es)
  {
    if es == [] {
      RunRefines(es);
    } else {
      var before, e := es[..|es| - 1], es[|es| - 1];
      CleanExactlyRefines(before);
      RunKeepsInv(before);
      if Clean(es) {
        RunRefines(es);
      } else if Clean(before) {
        RunRefines(before);
        HarmBreaks(Run(before), SpecRun(before), e);
      }
    }
  }

  /** Nobody has written a row that was deleted already. */
  ghost predicate NoRewrites<K, T>(es: seq<Event<K, T>>) {
    forall i :: 0 <= i < |es| ==> !es[i].Rewrite?
  }

  lemma {:induction false} NoRewritesIsClean<K, T>(es: seq<Event<K, T>>)
    requires NoRewrites(es)
    ensures Clean(es)
  {
    if es != [] {
      NoRewritesIsClean(es[..|es| - 1]);
    }
  }
}
