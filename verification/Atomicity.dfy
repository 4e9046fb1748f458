/** Commits appear whole, rollbacks vanish whole, and garbage collection is invisible. */
module Atomicity {
  import opened Versions
  import opened Mvcc
  import opened Snapshot

  // ----- commit -----

  /** The key is among the writes that the event publishes after the run `es`. */
  ghost predicate Publishes<K, T>(es: seq<Event<K, T>>, e: Event<K, T>, k: K) {
    && e.Commit? && Enabled(Run(es), e)
    && e.id in SpecRun(es).views && k in SpecRun(es).views[e.id].mine
  }

  /** No commit accepted during `later`, which follows `es`, wrote the key. */
  ghost predicate NotRecommitted<K, T>(es: seq<Event<K, T>>, later: seq<Event<K, T>>, k: K)
    decreases |later|
  {
    if later == [] then true else
    var n := |later| - 1;
    !Publishes(es + later[..n], later[n], k) && NotRecommitted(es, later[..n], k)
  }

  /** The committed contents of the key, and every snapshot of it taken by a transaction from `first` on, are `v`. */
  ghost predicate Holds<K, T>(a: Spec<K, T>, first: nat, k: K, v: Option<T>) {
    && Lookup(a.db, k) == v
    && forall id :: id in a.views && first <= id ==> Lookup(a.views[id].snap, k) == v
  }

  lemma StepHolds<K, T>(es: seq<Event<K, T>>, e: Event<K, T>, first: nat, k: K, v: Option<T>)
    requires Holds(SpecRun(es), first, k, v) && !Publishes(es, e, k)
    ensures Holds(SpecRun(es + [e]), first, k, v)
  {
    assert (es + [e])[..|es|] == es;
  }

  lemma {:induction false} RunHolds<K, T>(es: seq<Event<K, T>>, later: seq<Event<K, T>>, first: nat, k: K, v: Option<T>)
    requires Holds(SpecRun(es), first, k, v) && NotRecommitted(es, later, k)
    ensures Holds(SpecRun(es + later), first, k, v)
    decreases |later|
  {
    if later == [] {
      assert es + later == es;
    } else {
      var n := |later| - 1;
      var p, e := es + later[..n], later[n];
      RunHolds(es, later[..n], first, k, v);
      StepHolds(p, e, first, k, v);
      HoldsAt(es, later, p, e, first, k, v);
    }
  }

  lemma HoldsAt<K, T>(es: seq<Event<K, T>>, later: seq<Event<K, T>>, p: seq<Event<K, T>>, e: Event<K, T>, first: nat, k: K, v: Option<T>)
    requires later != [] && p == es + later[..|later| - 1] && e == later[|later| - 1]
    requires Holds(SpecRun(p + [e]), first, k, v)
    ensures Holds(SpecRun(es + later), first, k, v)
  {
    assert es + later == p + [e];
  }

  lemma {:induction false} ViewIds<K(!new), T>(es: seq<Event<K, T>>)
    ensures forall id :: id in SpecRun(es).views ==> id < Run(es).nextId
  {
    if es != [] {
      ViewIds(es[..|es| - 1]);
    }
  }

  lemma CommitStepReads<K, T>(s: State<K, T>, id: nat, i: nat, k: K)
    requires Inv(s) && Enabled(s, Commit(id)) && i < |s.active| && s.active[i].id != id
    ensures Visible(CellAt(CommitStep(s, id).cells, k), s.active[i].AsReader()) == Visible(CellAt(s.cells, k), s.active[i].AsReader())
  {
    var me, r := IndexOf(s.active, id), s.active[i].AsReader();
    var left := Without(s.active, me);
    assert s.active[me].id == id;
    RestampReads(CellAt(s.cells, k), id, s.clock, r);
    CommitKeepsUnlisted(s, id);
    var t := Unlist(s.(clock := s.clock + 1, cells := MapRestamp(s.cells, id, s.clock)), me, s.clock);
    InvCellAt(t, k);
    LowestStartIsMin(left);
    assert left[if i < me then i else i - 1] == s.active[i];
    PurgeReads(CellAt(t.cells, k), LowestStart(left), r);
  }

  /** A commit changes no read of any other running transaction. */
  lemma CommitHiddenFromRunning<K, T>(es: seq<Event<K, T>>, id: nat, i: nat, k: K)
    requires Enabled(Run(es), Commit(id))
    requires i < |Run(es).active| && Run(es).active[i].id != id
    ensures Read(Run(es + [Commit(id)]), Run(es).active[i], k) == Read(Run(es), Run(es).active[i], k)
  {
    RunKeepsInv(es);
    RunSnoc(es, Commit(id));
    CommitStepReads(Run(es), id, i, k);
  }

  /** Every transaction that starts after the commit reads all of the committer's writes, to whatever rows and
    names, until a later commit writes the same key again or it writes the key itself. */
  lemma CommitAppearsWhole<K(!new), T>(es: seq<Event<K, T>>, id: nat, later: seq<Event<K, T>>, i: nat, k: K)
    requires Enabled(Run(es), Commit(id))
    requires id in SpecRun(es).views && k in SpecRun(es).views[id].mine
    requires NotRecommitted(es + [Commit(id)], later, k) && Clean(es + [Commit(id)] + later)
    requires i < |Run(es + [Commit(id)] + later).active|
    requires Run(es + [Commit(id)]).nextId <= Run(es + [Commit(id)] + later).active[i].id
    requires !OwnedBy(CellAt(Run(es + [Commit(id)] + later).cells, k), Run(es + [Commit(id)] + later).active[i].id)
    ensures Read(Run(es + [Commit(id)] + later), Run(es + [Commit(id)] + later).active[i], k)
         == SpecRun(es).views[id].mine[k]
  {
    var done := es + [Commit(id)];
    var end := done + later;
    assert done[..|done| - 1] == es;
    ViewIds(done);
    RunHolds(done, later, Run(done).nextId, k, SpecRun(es).views[id].mine[k]);
    RunRefines(end);
    assert RefinesAt(Run(end), SpecRun(end), k);
  }

  // ----- rollback -----

  lemma {:induction false} RevertPurge<T>(c: Cell<T>, id: nat, floor: nat)
    requires WellFormed(c) && floor <= TRANSACTION_ID_START <= id
    ensures Revert(Purge(c, floor), id) == Purge(Revert(c, id), floor)
    decreases |c.undo|
  {
    if OwnedBy(c, id) {
      PopWellFormed(c);
      assert Keep(c.undo, floor) == [c.undo[0]] + Keep(c.undo[1..], floor);
      assert Pop(Purge(c, floor)) == Purge(Pop(c), floor);
      RevertPurge(Pop(c), id, floor);
    } else {
      KeepIsPrefix(c.undo, floor);
    }
  }

  lemma RestampOther<T>(c: Cell<T>, id: nat, other: nat, commitId: nat)
    requires WellFormed(c) && OwnedBy(c, id) && Uncommitted(id) && Uncommitted(other) && other != id
    ensures Restamp(c, other, commitId) == c
  {
    assert forall i :: 0 <= i < |c.undo| ==> c.undo[i].stamp != other;
  }

  /** The cell holds the transaction's writes on top of what is left of the earlier cell. */
  ghost predicate OnTopOf<T>(c: Cell<T>, id: nat, base: Cell<T>) {
    && OwnedBy(c, id)
    && Revert(c, id).cur == base.cur
    && Revert(c, id).undo <= base.undo
  }

  lemma PurgeOnTop<T>(c: Cell<T>, id: nat, base: Cell<T>, floor: nat)
    requires WellFormed(c) && Uncommitted(id) && floor <= TRANSACTION_ID_START && OnTopOf(c, id, base)
    ensures OnTopOf(Purge(c, floor), id, base)
  {
    RevertPurge(c, id, floor);
    RevertShape(c, id);
    PurgeShape(Revert(c, id), floor);
    PurgeShape(c, floor);
    KeepIsPrefix(c.undo, floor);
  }

  lemma OthersLeaveWrites<K, T>(s: State<K, T>, e: Event<K, T>, id: nat, k: K, base: Cell<T>)
    requires Inv(s) && Uncommitted(id) && OnTopOf(CellAt(s.cells, k), id, base)
    requires e != Commit(id) && e != Rollback(id)
    ensures OnTopOf(CellAt(Apply(s, e).cells, k), id, base)
  {
    var c := CellAt(s.cells, k);
    InvCellAt(s, k);
    if Enabled(s, e) {
      match e
      case Begin =>
      case BeginQuery(_) =>
      case EndQuery(_) =>
      case Write(other, key, v) =>
        if key == k {
          RevertOverwrite(c, id, v);
        }
      case Rewrite(_, key, data, v) =>
        if key == k {
          TouchedReverts(c, data, id, v);
        }
      case Commit(other) =>
        assert s.active[IndexOf(s.active, other)].id == other;
        RestampOther(c, id, other, s.clock);
        var t := Unlist(s.(clock := s.clock + 1, cells := MapRestamp(s.cells, other, s.clock)), IndexOf(s.active, other), s.clock);
        LowestStartIsMin(t.active);
        PurgeOnTop(c, id, base, LowestStart(t.active));
      case Rollback(other) =>
        assert s.active[IndexOf(s.active, other)].id == other;
        assert Revert(c, other) == c;
        var t := Unlist(s.(cells := MapRevert(s.cells, other)), IndexOf(s.active, other), 0);
        LowestStartIsMin(t.active);
        PurgeOnTop(c, id, base, LowestStart(t.active));
    }
  }

  lemma RunSnoc<K, T>(es: seq<Event<K, T>>, e: Event<K, T>)
    ensures Run(es + [e]) == Apply(Run(es), e)
  {
    assert (es + [e])[..|es|] == es;
  }

  lemma {:induction false} WritesStayOnTop<K, T>(es: seq<Event<K, T>>, mid: seq<Event<K, T>>, id: nat, k: K, base: Cell<T>)
    requires Uncommitted(id) && OnTopOf(CellAt(Run(es).cells, k), id, base)
    requires Commit(id) !in mid && Rollback(id) !in mid
    ensures OnTopOf(CellAt(Run(es + mid).cells, k), id, base)
    decreases |mid|
  {
    if mid == [] {
      assert es + mid == es;
    } else {
      var n := |mid| - 1;
      WritesStayOnTop(es, mid[..n], id, k, base);
      RunSnoc(es + mid[..n], mid[n]);
      assert es + mid == es + mid[..n] + [mid[n]];
      RunKeepsInv(es + mid[..n]);
      OthersLeaveWrites(Run(es + mid[..n]), mid[n], id, k, base);
    }
  }

  lemma WithoutKeepsOther(active: seq<Active>, i: nat, id: nat)
    requires i < |active| && active[i].id != id && IndexOf(active, id) < |active|
    ensures IndexOf(Without(active, i), id) < |Without(active, i)|
  {
    var j := IndexOf(active, id);
    assert Without(active, i)[if j < i then j else j - 1] == active[j];
  }

  lemma SetQueryKeepsActive<K, T>(s: State<K, T>, other: nat, q: nat, id: nat)
    requires IsActive(s, other) && IsActive(s, id)
    ensures IsActive(SetQuery(s, other, q), id)
  {
    assert SetQuery(s, other, q).active[IndexOf(s.active, id)].id == id;
  }

  lemma StaysActiveStep<K, T>(s: State<K, T>, e: Event<K, T>, id: nat)
    requires Inv(s) && IsActive(s, id) && e != Commit(id) && e != Rollback(id)
    ensures IsActive(Apply(s, e), id)
  {
    if Enabled(s, e) {
      match e
      case Begin => assert Apply(s, e).active[IndexOf(s.active, id)].id == id;
      case Write(_, _, _) =>
      case Rewrite(_, _, _, _) =>
      case Commit(other) => WithoutKeepsOther(s.active, IndexOf(s.active, other), id);
      case Rollback(other) => WithoutKeepsOther(s.active, IndexOf(s.active, other), id);
      case BeginQuery(other) => SetQueryKeepsActive(s, other, s.nextQuery, id);
      case EndQuery(other) => SetQueryKeepsActive(s, other, MAXIMUM_QUERY_ID, id);
    }
  }

  lemma {:induction false} StaysActive<K, T>(es: seq<Event<K, T>>, mid: seq<Event<K, T>>, id: nat)
    requires IsActive(Run(es), id) && Commit(id) !in mid && Rollback(id) !in mid
    ensures IsActive(Run(es + mid), id)
    decreases |mid|
  {
    if mid == [] {
      assert es + mid == es;
    } else {
      var n := |mid| - 1;
      StaysActive(es, mid[..n], id);
      assert (es + mid)[..|es + mid| - 1] == es + mid[..n];
      RunKeepsInv(es + mid[..n]);
      StaysActiveStep(Run(es + mid[..n]), mid[n], id);
    }
  }

  lemma RollbackUncovers<K, T>(s: State<K, T>, id: nat, k: K, base: Cell<T>)
    requires Inv(s) && IsActive(s, id) && OnTopOf(CellAt(s.cells, k), id, base)
    ensures CellAt(Apply(s, Rollback(id)).cells, k).cur == base.cur
    ensures CellAt(Apply(s, Rollback(id)).cells, k).undo <= base.undo
  {
    InvCellAt(s, k);
    assert s.active[IndexOf(s.active, id)].id == id;
    RevertShape(CellAt(s.cells, k), id);
    var t := Unlist(s.(cells := MapRevert(s.cells, id)), IndexOf(s.active, id), 0);
    PurgeShape(Revert(CellAt(s.cells, k), id), LowestStart(t.active));
  }

  /** Take the first write of a transaction to a key, then anything at all except its own commit or rollback, then its
    rollback: the contents, deleted flag included, are those from before the write, and so is the chain, up to old
    records that were garbage collected meanwhile. */
  lemma RollbackRestores<K, T>(es: seq<Event<K, T>>, id: nat, k: K, v: Option<T>, mid: seq<Event<K, T>>)
    requires Enabled(Run(es), Write(id, k, v)) && !OwnedBy(CellAt(Run(es).cells, k), id)
    requires Commit(id) !in mid && Rollback(id) !in mid
    ensures var before := CellAt(Run(es).cells, k);
            var after := CellAt(Run(es + [Write(id, k, v)] + mid + [Rollback(id)]).cells, k);
            after.cur == before.cur && after.undo <= before.undo
  {
    var base := CellAt(Run(es).cells, k);
    var written := es + [Write(id, k, v)];
    assert written[..|es|] == es;
    RunKeepsInv(es);
    assert Run(es).active[IndexOf(Run(es).active, id)].id == id;
    RevertOverwrite(base, id, v);
    WritesStayOnTop(written, mid, id, k, base);
    var all := written + mid;
    RunKeepsInv(all);
    StaysActive(written, mid, id);
    assert (all + [Rollback(id)])[..|all|] == all;
    RollbackUncovers(Run(all), id, k, base);
  }

  /** A row is inserted and committed; two transactions start; the second deletes the row and commits. */
  function Deletion<T>(data: T): seq<Event<nat, T>> {
    var id := TRANSACTION_ID_START;
    [Begin, Write(id, 0, Some(data)), Commit(id), Begin, Begin, Write(id + 2, 0, None), Commit(id + 2)]
  }

  lemma RunOf<K, T>(es: seq<Event<K, T>>, n: nat)
    requires n < |es|
    ensures Run(es[..n + 1]) == Apply(Run(es[..n]), es[n])
  {
    assert es[..n + 1][..n] == es[..n];
  }

  /** The first write of the last transaction to begin. */
  lemma NewestWrites<T>(s: State<nat, T>, me: Active, v: Option<T>)
    requires s.active != [] && me == s.active[|s.active| - 1] && IndexOf(s.active, me.id) == |s.active| - 1
    requires CellAt(s.cells, 0).undo == []
    ensures Apply(s, Write(me.id, 0, v)) == s.(cells := s.cells[0 := Cell(v, [Rec(me.id, CellAt(s.cells, 0).cur)])])
  {
    var rec := Rec(me.id, CellAt(s.cells, 0).cur);
    assert [rec] + CellAt(s.cells, 0).undo == [rec];
  }

  /** What its commit makes of the one row, when nothing waits for cleanup. */
  lemma NewestCommits<T>(s: State<nat, T>, me: Active, c: Cell<T>)
    requires s.active != [] && me == s.active[|s.active| - 1] && IndexOf(s.active, me.id) == |s.active| - 1
    requires 0 < s.clock < TRANSACTION_ID_START && s.recent == [] && s.cells == map[0 := c]
    ensures Apply(s, Commit(me.id)).clock == s.clock + 1
    ensures Apply(s, Commit(me.id)).active == s.active[..|s.active| - 1]
    ensures Apply(s, Commit(me.id)).cells
         == map[0 := Purge(Restamp(c, me.id, s.clock), LowestStart(s.active[..|s.active| - 1]))]
    ensures Apply(s, Commit(me.id)).nextId == s.nextId
    ensures s.active[..|s.active| - 1] == [] ==> Apply(s, Commit(me.id)).recent == []
  {
    var i := |s.active| - 1;
    assert Without(s.active, i) == s.active[..i];
  }

  lemma InsertionWritten<T>(s: State<nat, T>, data: T)
    requires s == Init()
    ensures var t := Apply(Apply(s, Begin), Write(TRANSACTION_ID_START, 0, Some(data)));
      && t.clock == 1 && t.nextId == TRANSACTION_ID_START + 1 && t.recent == []
      && t.active == [Active(TRANSACTION_ID_START, 0, MAXIMUM_QUERY_ID)]
      && t.cells == map[0 := Cell(Some(data), [Rec(TRANSACTION_ID_START, None)])]
  {
    NewestWrites(Apply(s, Begin), Active(TRANSACTION_ID_START, 0, MAXIMUM_QUERY_ID), Some(data));
  }

  lemma InsertionCommitted<T>(s: State<nat, T>, me: Active, data: T)
    requires s.clock == 1 && s.recent == [] && s.active == [me]
    requires s.cells == map[0 := Cell(Some(data), [Rec(me.id, None)])]
    ensures var t := Apply(s, Commit(me.id));
      && t.clock == 2 && t.nextId == s.nextId && t.active == [] && t.recent == []
      && t.cells == map[0 := Cell(Some(data), [])]
  {
    var written, done := Cell(Some(data), [Rec(me.id, None)]), Cell(Some(data), [Rec(1, None)]);
    NewestCommits(s, me, written);
    assert Restamp(written, me.id, 1) == done;
  }

  lemma RowInserted<T>(data: T)
    ensures var s := Run(Deletion(data)[..3]);
      && s.clock == 2 && s.nextId == TRANSACTION_ID_START + 1 && s.active == [] && s.recent == []
      && s.cells == map[0 := Cell(Some(data), [])]
  {
    var h := Deletion(data);
    RunOf(h, 0);
    RunOf(h, 1);
    RunOf(h, 2);
    InsertionWritten(Run(h[..0]), data);
    InsertionCommitted(Run(h[..2]), Active(TRANSACTION_ID_START, 0, MAXIMUM_QUERY_ID), data);
  }

  /** The two transactions that will compete. */
  function Pair(): seq<Active> {
    var id := TRANSACTION_ID_START;
    [Active(id + 1, 2, MAXIMUM_QUERY_ID), Active(id + 2, 3, MAXIMUM_QUERY_ID)]
  }

  lemma TwoBegun<T>(data: T)
    ensures var s := Run(Deletion(data)[..5]);
      s.clock == 4 && s.active == Pair() && s.recent == [] && s.cells == map[0 := Cell(Some(data), [])]
  {
    RowInserted(data);
    RunOf(Deletion(data), 3);
    RunOf(Deletion(data), 4);
  }

  lemma RowOverwritten<T>(data: T)
    ensures var s := Run(Deletion(data)[..6]);
      && s.clock == 4 && s.active == Pair() && s.recent == []
      && s.cells == map[0 := Cell(None, [Rec(TRANSACTION_ID_START + 2, Some(data))])]
  {
    TwoBegun(data);
    RunOf(Deletion(data), 5);
    NewestWrites(Run(Deletion(data)[..5]), Pair()[1], None);
  }

  lemma DeletionCommitted<T>(s: State<nat, T>, data: T)
    requires s.clock == 4 && s.active == Pair() && s.recent == []
    requires s.cells == map[0 := Cell(None, [Rec(TRANSACTION_ID_START + 2, Some(data))])]
    ensures var t := Apply(s, Commit(TRANSACTION_ID_START + 2));
      t.active == [Pair()[0]] && CellAt(t.cells, 0) == Cell(None, [Rec(4, Some(data))])
  {
    var id := TRANSACTION_ID_START + 2;
    var written, done := Cell(None, [Rec(id, Some(data))]), Cell(None, [Rec(4, Some(data))]);
    NewestCommits(s, Pair()[1], written);
    assert Restamp(written, id, 4) == done;
    assert s.active[..1] == [Pair()[0]];
    assert LowestStart([Pair()[0]]) == 2;
    assert Keep(done.undo, 2) == done.undo;
  }

  lemma RowDeleted<T>(data: T)
    ensures var s := Run(Deletion(data));
      s.active == [Pair()[0]] && CellAt(s.cells, 0) == Cell(None, [Rec(4, Some(data))])
  {
    var h := Deletion(data);
    RowOverwritten(data);
    RunOf(h, 6);
    DeletionCommitted(Run(h[..6]), data);
    assert h[..7] == h;
  }

  lemma RowRevived<T>(s: State<nat, T>, data: T, v: Option<T>)
    requires s.active == [Pair()[0]] && CellAt(s.cells, 0) == Cell(None, [Rec(4, Some(data))])
    ensures var id := Pair()[0].id;
      && Read(s, Pair()[0], 0) == Some(data) && CommittedValue(CellAt(s.cells, 0)) == None
      && Enabled(s, Rewrite(id, 0, data, v)) && Enabled(Apply(s, Rewrite(id, 0, data, v)), Rollback(id))
      && CommittedValue(CellAt(Apply(Apply(s, Rewrite(id, 0, data, v)), Rollback(id)).cells, 0)) == Some(data)
  {
    var me, c := Pair()[0], CellAt(s.cells, 0);
    assert IsActive(s, me.id);
    assert Visible(Pop(c), me.AsReader()) == Some(data);
    TouchedReverts(c, data, me.id, v);
    var t := Apply(s, Rewrite(me.id, 0, data, v));
    var back := Cell(Some(data), c.undo);
    assert CellAt(MapRevert(t.cells, me.id), 0) == back;
    var floor := LowestStart(Without(t.active, IndexOf(t.active, me.id)));
    LowestStartIsMin(Without(t.active, IndexOf(t.active, me.id)));
    PurgeCommitted(back, floor);
  }

  /** After this history the first transaction, still running, reads the deleted row and may write it, whatever it writes.
      Its rollback brings the row back for everybody. */
  lemma RollbackRevivesDeletedRow<T>(data: T, v: Option<T>)
    ensures var s, id := Run(Deletion(data)), TRANSACTION_ID_START + 1;
      && |s.active| == 1 && s.active[0].id == id && Read(s, s.active[0], 0) == Some(data)
      && CommittedValue(CellAt(s.cells, 0)) == None
    ensures var id, wrote := TRANSACTION_ID_START + 1, Deletion(data) + [Rewrite(TRANSACTION_ID_START + 1, 0, data, v)];
      && Enabled(Run(Deletion(data)), Rewrite(id, 0, data, v)) && Enabled(Run(wrote), Rollback(id))
      && CommittedValue(CellAt(Run(wrote + [Rollback(id)]).cells, 0)) == Some(data)
  {
    var id := TRANSACTION_ID_START + 1;
    RowDeleted(data);
    RowRevived(Run(Deletion(data)), data, v);
    RunSnoc(Deletion(data), Rewrite(id, 0, data, v));
    RunSnoc(Deletion(data) + [Rewrite(id, 0, data, v)], Rollback(id));
  }

  // ----- garbage collection -----

  /** Collecting changes no read of any running transaction, nor of any that starts later, nor the committed contents. */
  lemma CollectIsInvisible<K, T>(s: State<K, T>, r: Reader, k: K)
    requires Inv(s)
    requires s.clock <= r.start || exists i :: 0 <= i < |s.active| && r == s.active[i].AsReader()
    ensures Visible(CellAt(Collect(s).cells, k), r) == Visible(CellAt(s.cells, k), r)
    ensures CommittedValue(CellAt(Collect(s).cells, k)) == CommittedValue(CellAt(s.cells, k))
  {
    InvCellAt(s, k);
    var c, floor := CellAt(s.cells, k), LowestStart(s.active);
    LowestStartIsMin(s.active);
    PurgeCommitted(c, floor);
    if floor <= r.start {
      PurgeReads(c, floor, r);
    } else {
      // nobody is active and every stamp is below the clock
      forall i | 0 <= i < |c.undo| ensures c.undo[i].stamp < s.clock {
        assert Listed(s.active, s.recent, c.undo[i].stamp);
      }
      assert Visible(c, r) == c.cur;
      PurgeShape(c, floor);
      assert Visible(Purge(c, floor), r) == c.cur;
    }
  }
}
