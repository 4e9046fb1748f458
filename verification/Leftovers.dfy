/** What is kept of the past: only what somebody who is running may still need. */
module Leftovers {
  import opened Versions
  import opened Mvcc

  /** Somebody is running who began before the commit. */
  ghost predicate Needed(active: seq<Active>, commitId: nat) {
    exists i :: 0 <= i < |active| && active[i].start < commitId
  }

  ghost predicate ChainNeeded<T>(c: Cell<T>, active: seq<Active>) {
    forall i :: 0 <= i < |c.undo| && c.undo[i].stamp < 4294967296 ==> Needed(active, c.undo[i].stamp)
  }

  /** No undo record and no entry in the list of committed transactions is kept for nobody; nothing waits to be freed when
    nobody is running. */
  ghost predicate NothingOld<K, T>(s: State<K, T>) {
    && (forall k :: k in s.cells ==> ChainNeeded(s.cells[k], s.active))
    && (forall j :: 0 <= j < |s.recent| ==> Needed(s.active, s.recent[j].commitId))
    && (s.active == [] ==> s.retired == [])
  }

  lemma FloorIsNeeded<K, T>(s: State<K, T>, stamp: nat)
    requires Inv(s) && LowestStart(s.active) <= stamp < 4294967296
    requires exists j :: 0 <= j < |s.recent| && s.recent[j].commitId == stamp
    ensures Needed(s.active, stamp)
  {
    LowestStartIsMin(s.active);
    var j :| 0 <= j < |s.recent| && s.recent[j].commitId == stamp;
    var i :| 0 <= i < |s.active| && s.active[i].start == LowestStart(s.active);
    assert s.active[i].start != s.recent[j].commitId;
  }

  lemma CollectLeavesNeeded<K, T>(s: State<K, T>)
    requires Inv(s)
    ensures NothingOld(Collect(s))
  {
    var t, floor := Collect(s), LowestStart(s.active);
    CollectKeepsInv(s);
    ExpiredSplits(s.recent, floor);
    forall j | 0 <= j < |t.recent| ensures Needed(t.active, t.recent[j].commitId) {
      FloorIsNeeded(t, t.recent[j].commitId);
    }
    forall k | k in t.cells ensures ChainNeeded(t.cells[k], t.active) {
      KeepIsPrefix(s.cells[k].undo, floor);
      forall i | 0 <= i < |t.cells[k].undo| && t.cells[k].undo[i].stamp < 4294967296 ensures Needed(t.active, t.cells[k].undo[i].stamp) {
        assert Listed(t.active, t.recent, t.cells[k].undo[i].stamp);
        FloorIsNeeded(t, t.cells[k].undo[i].stamp);
      }
    }
  }

  lemma WriteLeavesNeeded<T>(c: Cell<T>, d: Cell<T>, active: seq<Active>)
    requires ChainNeeded(c, active) && d.undo != [] && d.undo[1..] == c.undo && 4294967296 <= d.undo[0].stamp
    ensures ChainNeeded(d, active)
  {
    assert forall i :: 0 < i < |d.undo| ==> d.undo[i] == c.undo[i - 1];
  }

  lemma StillNeeded(active: seq<Active>, active': seq<Active>, commitId: nat)
    requires Needed(active, commitId) && |active| <= |active'|
    requires forall i :: 0 <= i < |active| ==> active'[i].start == active[i].start
    ensures Needed(active', commitId)
  {
    var i :| 0 <= i < |active| && active[i].start < commitId;
    assert active'[i].start < commitId;
  }

  lemma ListGrows<K, T>(s: State<K, T>, t: State<K, T>)
    requires NothingOld(s) && t.cells == s.cells && t.recent == s.recent && (t.active == [] ==> t.retired == [])
    requires |s.active| <= |t.active| && forall i :: 0 <= i < |s.active| ==> t.active[i].start == s.active[i].start
    ensures NothingOld(t)
  {
    forall j | 0 <= j < |t.recent| { StillNeeded(s.active, t.active, t.recent[j].commitId); }
    forall k | k in t.cells ensures ChainNeeded(t.cells[k], t.active) {
      assert ChainNeeded(s.cells[k], s.active);
      forall i | 0 <= i < |s.cells[k].undo| && s.cells[k].undo[i].stamp < 4294967296 {
        StillNeeded(s.active, t.active, s.cells[k].undo[i].stamp);
      }
    }
  }

  lemma WriteKeepsNothingOld<K, T>(s: State<K, T>, e: Event<K, T>)
    requires Inv(s) && NothingOld(s) && Writes(e) && Enabled(s, e)
    ensures NothingOld(Apply(s, e))
  {
    var t := Apply(s, e);
    assert s.active[IndexOf(s.active, e.id)].id == e.id;
    WriteLeavesNeeded(CellAt(s.cells, e.key), CellAt(t.cells, e.key), s.active);
  }

  lemma StepKeepsNothingOld<K, T>(s: State<K, T>, e: Event<K, T>)
    requires Inv(s) && NothingOld(s)
    ensures NothingOld(Apply(s, e))
  {
    if Enabled(s, e) {
      match e
      case Begin => ListGrows(s, Apply(s, e));
      case Write(_, _, _) => WriteKeepsNothingOld(s, e);
      case Rewrite(_, _, _, _) => WriteKeepsNothingOld(s, e);
      case Commit(id) =>
        CommitKeepsUnlisted(s, id);
        CollectLeavesNeeded(Unlist(s.(clock := s.clock + 1, cells := MapRestamp(s.cells, id, s.clock)), IndexOf(s.active, id), s.clock));
      case Rollback(id) =>
        RollbackKeepsUnlisted(s, id);
        CollectLeavesNeeded(Unlist(s.(cells := MapRevert(s.cells, id)), IndexOf(s.active, id), 0));
      case BeginQuery(_) => ListGrows(s, Apply(s, e));
      case EndQuery(_) => ListGrows(s, Apply(s, e));
    }
  }

  /** In every reachable state. */
  lemma {:induction false} RunKeepsNothingOld<K, T>(es: seq<Event<K, T>>)
    ensures NothingOld(Run(es))
  {
    if es != [] {
      RunKeepsNothingOld(es[..|es| - 1]);
      RunKeepsInv(es[..|es| - 1]);
      StepKeepsNothingOld(Run(es[..|es| - 1]), es[|es| - 1]);
    }
  }

  /** When nobody is running, nothing is kept at all. */
  lemma NothingIsKept<K, T>(es: seq<Event<K, T>>, k: K)
    requires Run(es).active == []
    ensures Run(es).recent == [] && Run(es).retired == [] && CellAt(Run(es).cells, k).undo == []
  {
    var s := Run(es);
    RunKeepsNothingOld(es);
    RunKeepsInv(es);
    NobodyNeeds(s, k);
  }

  lemma NobodyNeeds<K, T>(s: State<K, T>, k: K)
    requires Inv(s) && NothingOld(s) && s.active == []
    ensures s.recent == [] && CellAt(s.cells, k).undo == []
  {
    NoneNeeded(s.recent, s.active);
    NoneStamped(CellAt(s.cells, k), s.active);
  }

  lemma NoneNeeded(recent: seq<Committed>, active: seq<Active>)
    requires active == []
    ensures |recent| > 0 ==> !Needed(active, recent[0].commitId)
  {
  }

  lemma NoneStamped<T>(c: Cell<T>, active: seq<Active>)
    requires active == []
    ensures |c.undo| > 0 ==> !Listed(active, [], c.undo[0].stamp)
  {
  }
}
