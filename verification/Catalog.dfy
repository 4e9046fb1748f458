/** The catalog under the transaction manager: creates, drops and lookups by any number of transactions.

  As for rows, every operation is proved to do exactly one event of the transition system, so a
  lookup reads the transaction's own last create or drop, or else what was committed when it started.
  The clock, the transaction lists and the order of cleanup are the manager's; they come in as
  parameters, which `RowsAndNames` supplies. */
module Catalog {
  import opened Versions
  import opened Mvcc
  import opened Snapshot
  import opened Reference
  import opened Removal
  import CS = CatalogSet

  type Name = string
  type Value = CS.Value
  type CatalogEvent = Event<Name, Value>
  type CatalogState = State<Name, Value>
  type History = seq<CatalogEvent>

  /** Run(h) is s.  The counter keeps the run closed where only its last step matters. */
  ghost predicate Leads(h: History, s: CatalogState, n: nat := CLOSED)
    decreases |h|, n
  {
    if n == 0 then s == Run(h) else Leads(h, s, n - 1)
  }

  lemma {:induction false} LeadsIs(h: History, s: CatalogState, n: nat := CLOSED)
    ensures Leads(h, s, n) <==> s == Run(h)
    decreases n
  {
    if n > 0 { LeadsIs(h, s, n - 1); }
  }

  lemma LeadsOn(h: History, s: CatalogState, e: CatalogEvent)
    requires Leads(h, s)
    ensures Leads(h + [e], Apply(s, e))
  {
    LeadsIs(h, s);
    LeadsIs(h + [e], Apply(s, e));
    assert (h + [e])[..|h|] == h;
  }

  /** The commit ids of the transactions that can be cleaned up, oldest first. */
  ghost function ExpiredIds(s: CatalogState): (ids: seq<nat>)
    ensures |ids| == Expired(s.recent, LowestStart(s.active))
    ensures forall i :: 0 <= i < |ids| ==> ids[i] == s.recent[i].commitId
  {
    seq(Expired(s.recent, LowestStart(s.active)), i requires 0 <= i < Expired(s.recent, LowestStart(s.active)) => s.recent[i].commitId)
  }

  /** After a commit, before anything is cleaned up. */
  ghost function Stamped(s: CatalogState, id: nat): CatalogState
    requires IsActive(s, id)
  {
    Mvcc.Unlist(s.(clock := s.clock + 1, cells := MapRestamp(s.cells, id, s.clock)), IndexOf(s.active, id), s.clock)
  }

  /** After a rollback, before anything is cleaned up. */
  ghost function Reverted(s: CatalogState, id: nat): CatalogState
    requires IsActive(s, id)
  {
    Mvcc.Unlist(s.(cells := MapRevert(s.cells, id)), IndexOf(s.active, id), 0)
  }

  ghost predicate Buffered(nodes: seq<CS.Node>, chains: map<string, seq<nat>>, buffers: map<nat, seq<nat>>, stamp: nat) {
    stamp in buffers && CS.Owns(nodes, chains, buffers[stamp], stamp)
  }

  class Catalog {
    const entries: CS.CatalogSet
    /** The replaced versions in the undo buffer of each running or committed transaction, by its stamp. */
    var buffers: map<nat, seq<nat>>

    ghost var state: CatalogState
    ghost var history: History

    /** Every name has the versions that the transition system gives it, but for the stamps below the floor. */
    ghost predicate ShowsFrom(cells: map<Name, Cell<Value>>, floor: nat)
      requires entries.Valid()
      reads this, entries
    {
      forall name :: entries.CellOf(name) == Purge(CellAt(cells, name), floor)
    }

    ghost predicate Shows(cells: map<Name, Cell<Value>>)
      requires entries.Valid()
      reads this, entries
    {
      forall name :: entries.CellOf(name) == CellAt(cells, name)
    }

    /** Every running transaction, and every committed one from position i on, has its undo buffer. */
    ghost predicate BuffersFor(active: seq<Active>, recent: seq<Committed>)
      reads this, entries
    {
      && (forall j :: 0 <= j < |active| ==> Buffered(entries.nodes, entries.chains, buffers, active[j].id))
      && (forall j :: 0 <= j < |recent| ==> Buffered(entries.nodes, entries.chains, buffers, recent[j].commitId))
    }

    ghost predicate Sound(s: CatalogState)
      reads this, entries
    {
      Inv(s) && entries.Valid() && Shows(s.cells) && BuffersFor(s.active, s.recent)
    }

    ghost predicate Valid()
      reads this, entries
    {
      Sound(state) && Leads(history, state) && NoRewrites(history)
    }

    constructor ()
      ensures Valid() && history == [] && fresh(entries)
    {
      entries := new CS.CatalogSet();
      buffers, state, history := map[], Init(), [];
      new;
      LeadsIs([], Init());
    }

    /** What a lookup finds is what the reference machine says. */
    lemma LookupIsSnapshot(i: nat, name: Name)
      requires Valid() && i < |state.active|
      ensures state == Run(history) && state.active[i].id in SpecRun(history).views
      ensures Visible(entries.CellOf(name), state.active[i].AsReader()) == SpecRead(SpecRun(history).views[state.active[i].id], name)
    {
      LeadsIs(history, state);
      NoRewritesIsClean(history);
      SnapshotIsolation(history, i, name);
    }

    /** Whether a name is in use or in dispute, in the terms of the reference machine. */
    lemma KnownExactly(id: nat, name: Name)
      requires Valid() && IsActive(state, id)
      ensures Conflicts(CellAt(state.cells, name), id) <==> WrittenByOther(SpecRun(history), id, name)
      ensures !Conflicts(CellAt(state.cells, name), id) ==> CellAt(state.cells, name).cur == Newest(SpecRun(history), id, name)
    {
      LeadsIs(history, state);
      NoRewritesIsClean(history);
      WrittenExactly(history, id, name);
    }

    /** The catalog after one more event. */
    ghost method Happened(e: CatalogEvent, s: CatalogState)
      requires Leads(history, s) && Sound(Apply(s, e)) && NoRewrites(history) && !e.Rewrite?
      modifies this`state, this`history
      ensures Valid() && history == old(history) + [e] && state == Apply(s, e)
    {
      LeadsOn(history, s, e);
      history, state := history + [e], Apply(s, e);
    }

    /** A stamp that nobody in the lists has is on no version. */
    lemma NobodyOwns(s: CatalogState, stamp: nat)
      requires Inv(s) && entries.Valid() && Shows(s.cells) && !Listed(s.active, s.recent, stamp)
      ensures CS.Owns(entries.nodes, entries.chains, [], stamp)
    {
      forall name, p: nat | name in entries.chains && p < |entries.chains[name]| - 1
        ensures CS.OwnedAt(entries.nodes, entries.chains[name], p, [], stamp)
      {
        var c := entries.CellOf(name);
        assert CS.ChainOk(entries.nodes, entries.chains[name], name);
        assert c == CellAt(s.cells, name) && p < |c.undo|;
        assert InvCell(c, s.active, s.recent) && Listed(s.active, s.recent, c.undo[p].stamp);
      }
    }

    /** A transaction starts, with an empty undo buffer. */
    method Start(id: nat)
      requires Valid() && id == state.nextId && Enabled(state, Begin)
      modifies this
      ensures Valid() && history == old(history) + [Begin] && state == BeginStep(old(state))
    {
      ApplyKeepsInv(state, Begin);
      NobodyOwns(state, id);
      buffers := buffers[id := []];
      Happened(Begin, state);
    }

    /** No transaction starts when the clock has run out. */
    ghost method StartRefused()
      requires Valid() && !Enabled(state, Begin)
      modifies this`state, this`history
      ensures Valid() && history == old(history) + [Begin] && state == old(state)
    {
      Happened(Begin, state);
    }

    ghost method QueryEvent(e: CatalogEvent)
      requires Valid() && (e.BeginQuery? || e.EndQuery?)
      modifies this`state, this`history
      ensures Valid() && history == old(history) + [e] && state == Apply(old(state), e)
    {
      ApplyKeepsInv(state, e);
      SetQueryShape(state, e);
      Happened(e, state);
    }

    lemma SetQueryShape(s: CatalogState, e: CatalogEvent)
      requires e.BeginQuery? || e.EndQuery?
      ensures var t := Apply(s, e);
        && t.cells == s.cells && t.recent == s.recent && |t.active| == |s.active|
        && forall j :: 0 <= j < |s.active| ==> t.active[j].id == s.active[j].id
    {
    }

    /** The running transaction's buffer is its own, and everybody else's is still theirs. */
    lemma Rewritten(nodes: seq<CS.Node>, chains: map<string, seq<nat>>, was: map<nat, seq<nat>>, id: nat, backup: nat)
      requires Inv(state) && IsActive(state, id) && id in was
      requires forall j :: 0 <= j < |state.active| ==> Buffered(nodes, chains, was, state.active[j].id)
      requires forall j :: 0 <= j < |state.recent| ==> Buffered(nodes, chains, was, state.recent[j].commitId)
      requires entries.Recorded(nodes, chains, id, Some(backup)) && buffers == was[id := was[id] + [backup]]
      ensures BuffersFor(state.active, state.recent)
    {
      assert Buffered(nodes, chains, was, state.active[IndexOf(state.active, id)].id);
      forall j | 0 <= j < |state.active| ensures Buffered(entries.nodes, entries.chains, buffers, state.active[j].id) {
        assert Buffered(nodes, chains, was, state.active[j].id);
      }
      forall j | 0 <= j < |state.recent| ensures Buffered(entries.nodes, entries.chains, buffers, state.recent[j].commitId) {
        assert Buffered(nodes, chains, was, state.recent[j].commitId);
      }
    }

    lemma Unwritten(nodes: seq<CS.Node>, chains: map<string, seq<nat>>, id: nat)
      requires forall j :: 0 <= j < |state.active| ==> Buffered(nodes, chains, buffers, state.active[j].id)
      requires forall j :: 0 <= j < |state.recent| ==> Buffered(nodes, chains, buffers, state.recent[j].commitId)
      requires entries.Recorded(nodes, chains, id, None)
      ensures BuffersFor(state.active, state.recent)
    {
      forall j | 0 <= j < |state.active| ensures Buffered(entries.nodes, entries.chains, buffers, state.active[j].id) {
        assert Buffered(nodes, chains, buffers, state.active[j].id);
      }
      forall j | 0 <= j < |state.recent| ensures Buffered(entries.nodes, entries.chains, buffers, state.recent[j].commitId) {
        assert Buffered(nodes, chains, buffers, state.recent[j].commitId);
      }
    }

    /** The outcome of a write that replaced a version. */
    method Record(ghost nodes: seq<CS.Node>, ghost chains: map<string, seq<nat>>, id: nat, ghost name: Name, ghost value: Option<Value>, backup: nat)
      requires entries.Valid() && Inv(state) && Leads(history, state) && NoRewrites(history) && IsActive(state, id)
      requires forall j :: 0 <= j < |state.active| ==> Buffered(nodes, chains, buffers, state.active[j].id)
      requires forall j :: 0 <= j < |state.recent| ==> Buffered(nodes, chains, buffers, state.recent[j].commitId)
      requires entries.Recorded(nodes, chains, id, Some(backup))
      requires !Conflicts(CellAt(state.cells, name), id)
      requires Shows(state.cells[name := Overwrite(CellAt(state.cells, name), id, value)])
      modifies this
      ensures Valid() && history == old(history) + [Write(id, name, value)] && state == WriteStep(old(state), id, name, value)
    {
      assert Buffered(nodes, chains, buffers, state.active[IndexOf(state.active, id)].id);
      ghost var was := buffers;
      buffers := buffers[id := buffers[id] + [backup]];
      Rewritten(nodes, chains, was, id, backup);
      ApplyKeepsInv(state, Write(id, name, value));
      Happened(Write(id, name, value), state);
    }

    /** Creates a name; refused while it is live, or being changed by somebody else. */
    method Create(id: nat, name: Name, value: Value) returns (outcome: CS.Outcome)
      requires Valid() && IsActive(state, id)
      modifies this, entries
      ensures Valid()
      ensures var c := CellAt(old(state).cells, name);
        outcome == if Conflicts(c, id) then CS.Conflict else if c.cur.Some? then CS.Refused else CS.Accepted
      ensures var a := SpecRun(old(history));
        outcome == if WrittenByOther(a, id, name) then CS.Conflict else if Newest(a, id, name).Some? then CS.Refused else CS.Accepted
      ensures outcome.Accepted? ==>
        history == old(history) + [Write(id, name, Some(value))] && state == WriteStep(old(state), id, name, Some(value))
      ensures !outcome.Accepted? ==> history == old(history) && state == old(state)
    {
      KnownExactly(id, name);
      ghost var nodes, chains := entries.nodes, entries.chains;
      var backup;
      outcome, backup := entries.CreateEntry(id, name, value);
      if backup.Some? {
        Record(nodes, chains, id, name, Some(value), backup.value);
      } else {
        Unwritten(nodes, chains, id);
      }
    }

    /** Drops a name; what is already dropped stays as it is. */
    method Drop(id: nat, name: Name) returns (outcome: CS.Outcome)
      requires Valid() && IsActive(state, id) && name in entries.data
      modifies this, entries
      ensures Valid()
      ensures outcome == if Conflicts(CellAt(old(state).cells, name), id) then CS.Conflict else CS.Accepted
      ensures outcome == if WrittenByOther(SpecRun(old(history)), id, name) then CS.Conflict else CS.Accepted
      ensures if outcome.Accepted? && CellAt(old(state).cells, name).cur.Some?
              then history == old(history) + [Write(id, name, None)] && state == WriteStep(old(state), id, name, None)
              else history == old(history) && state == old(state)
    {
      KnownExactly(id, name);
      ghost var nodes, chains := entries.nodes, entries.chains;
      var backup;
      outcome, backup := entries.DropEntry(id, name);
      if backup.Some? {
        Record(nodes, chains, id, name, None, backup.value);
      } else {
        Unwritten(nodes, chains, id);
      }
    }

    /** A lookup reads the transaction's own last create or drop, or else what was committed when it started. */
    method Get(id: nat, start: nat, name: Name) returns (entry: Option<Value>)
      requires Valid() && IsActive(state, id) && start == state.active[IndexOf(state.active, id)].start
      ensures id in SpecRun(history).views && entry == SpecRead(SpecRun(history).views[id], name)
    {
      entry := entries.GetEntry(id, start, name);
      LookupIsSnapshot(IndexOf(state.active, id), name);
    }

    // ----- cleanup -----

    /** The next committed transaction is the oldest that any version still carries. */
    lemma ReadyToClean(s: CatalogState, i: nat)
      requires Inv(s) && i < |s.recent| && entries.Valid() && ShowsFrom(s.cells, Reached(s.recent, i))
      ensures CS.NoneOlder(entries.nodes, entries.chains, s.recent[i].commitId)
    {
      forall name | name in entries.chains
        ensures CS.NoneOlderIn(CS.CellIn(entries.nodes, entries.chains, name), s.recent[i].commitId)
      {
        assert entries.CellOf(name) == Purge(CellAt(s.cells, name), Reached(s.recent, i));
        if name in s.cells { NothingBelow(s, name, i, Reached(s.recent, i)); }
      }
    }

    method CleanupNext(i: nat, commitId: nat, ghost s: CatalogState)
      requires Inv(s) && i < |s.recent| && commitId == s.recent[i].commitId
      requires entries.Valid() && ShowsFrom(s.cells, Reached(s.recent, i)) && BuffersFor(s.active, s.recent[i..])
      modifies this`buffers, entries
      ensures entries.Valid() && ShowsFrom(s.cells, Reached(s.recent, i + 1)) && BuffersFor(s.active, s.recent[i + 1..])
    {
      ghost var nodes, chains, was := entries.nodes, entries.chains, buffers;
      assert s.recent[i..][0] == s.recent[i];
      ReadyToClean(s, i);
      entries.CleanupAll(buffers[commitId], commitId);
      buffers := buffers - {commitId};
      forall name ensures entries.CellOf(name) == Purge(CellAt(s.cells, name), commitId + 1) {
        PurgeTwice(CellAt(s.cells, name), Reached(s.recent, i), commitId + 1);
      }
      CommitIdAlone(s, i);
      OthersBuffered(nodes, chains, was, commitId, s.active, s.recent[i..], s.recent[i + 1..]);
    }

    lemma CommitIdAlone(s: CatalogState, i: nat)
      requires Inv(s) && i < |s.recent|
      ensures Reached(s.recent, i) <= s.recent[i].commitId + 1
      ensures forall j :: 0 <= j < |s.active| ==> s.active[j].id != s.recent[i].commitId
      ensures forall c :: c in s.recent[i + 1..] ==> c in s.recent[i..] && c.commitId != s.recent[i].commitId
    {
      forall c | c in s.recent[i + 1..] ensures c in s.recent[i..] && c.commitId != s.recent[i].commitId {
        var j :| 0 <= j < |s.recent[i + 1..]| && s.recent[i + 1..][j] == c;
        assert s.recent[i..][j + 1] == c == s.recent[i + 1 + j];
      }
    }

    /** Nobody else's buffer changes when everything with one stamp goes. */
    lemma OthersBuffered(nodes: seq<CS.Node>, chains: map<string, seq<nat>>, was: map<nat, seq<nat>>, stamp: nat,
                         active: seq<Active>, recent: seq<Committed>, recent': seq<Committed>)
      requires CS.OthersOwn(nodes, entries.nodes, chains, entries.chains, stamp) && buffers == was - {stamp}
      requires forall j :: 0 <= j < |active| ==> active[j].id != stamp && Buffered(nodes, chains, was, active[j].id)
      requires forall c :: c in recent' ==> c in recent && c.commitId != stamp
      requires forall j :: 0 <= j < |recent| ==> Buffered(nodes, chains, was, recent[j].commitId)
      ensures BuffersFor(active, recent')
    {
      forall j | 0 <= j < |active| ensures Buffered(entries.nodes, entries.chains, buffers, active[j].id) {
        assert Buffered(nodes, chains, was, active[j].id);
      }
      forall j | 0 <= j < |recent'| ensures Buffered(entries.nodes, entries.chains, buffers, recent'[j].commitId) {
        assert recent'[j] in recent';
        var k :| 0 <= k < |recent| && recent[k] == recent'[j];
        assert Buffered(nodes, chains, was, recent[k].commitId);
      }
    }

    /** Forgets, in commit order, what no running transaction can look up any more. */
    method CleanupExpired(expired: seq<nat>, ghost s: CatalogState)
      requires Inv(s) && entries.Valid() && Shows(s.cells) && BuffersFor(s.active, s.recent) && expired == ExpiredIds(s)
      modifies this`buffers, entries
      ensures entries.Valid() && Shows(Collect(s).cells) && BuffersFor(s.active, Collect(s).recent)
    {
      CleanedNone(s);
      var i := 0;
      assert s.recent[0..] == s.recent;
      while i < |expired|
        invariant 0 <= i <= |expired| && entries.Valid()
        invariant ShowsFrom(s.cells, Reached(s.recent, i)) && BuffersFor(s.active, s.recent[i..])
      {
        CleanupNext(i, expired[i], s);
        i := i + 1;
      }
      AllCleaned(s);
    }

    lemma CleanedNone(s: CatalogState)
      requires entries.Valid() && Shows(s.cells)
      ensures ShowsFrom(s.cells, 0)
    {
      forall name ensures entries.CellOf(name) == Purge(CellAt(s.cells, name), 0) {
        KeepZero(CellAt(s.cells, name).undo);
      }
    }

    lemma AllCleaned(s: CatalogState)
      requires Inv(s) && entries.Valid() && ShowsFrom(s.cells, Reached(s.recent, |ExpiredIds(s)|))
      ensures Shows(Collect(s).cells)
    {
      var n := |ExpiredIds(s)|;
      forall name ensures entries.CellOf(name) == CellAt(MapPurge(s.cells, LowestStart(s.active)), name) {
        if name in s.cells { CleanedUpTo(s, name, n, LowestStart(s.active), Reached(s.recent, n)); }
      }
    }

    // ----- the end of a transaction -----

    /** Commits with the next time stamp, and forgets what nobody needs any more. */
    method Commit(id: nat, commitId: nat, expired: seq<nat>)
      requires Valid() && Enabled(state, Event.Commit(id)) && commitId == state.clock && expired == ExpiredIds(Stamped(state, id))
      modifies this, entries
      ensures Valid() && history == old(history) + [Event.Commit(id)] && state == CommitStep(old(state), id)
    {
      StampAll(id, commitId);
      CommitKeepsUnlisted(state, id);
      CleanupExpired(expired, Stamped(state, id));
      Finish(Event.Commit(id), Stamped(state, id));
    }

    ghost method Finish(e: CatalogEvent, t: CatalogState)
      requires Inv(state) && Leads(history, state) && Apply(state, e) == Collect(t) && NoRewrites(history) && !e.Rewrite?
      requires entries.Valid() && Shows(Collect(t).cells) && BuffersFor(t.active, Collect(t).recent)
      modifies this`state, this`history
      ensures Valid() && history == old(history) + [e] && state == Apply(old(state), e)
    {
      ApplyKeepsInv(state, e);
      Happened(e, state);
    }

    /** The stamp of the transaction becomes its commit id on every version. */
    method StampAll(id: nat, commitId: nat)
      requires Sound(state) && Enabled(state, Event.Commit(id)) && commitId == state.clock
      modifies this`buffers, entries
      ensures entries.Valid() && Shows(Stamped(state, id).cells) && BuffersFor(Stamped(state, id).active, Stamped(state, id).recent)
    {
      ghost var nodes, chains, was := entries.nodes, entries.chains, buffers;
      ghost var i := IndexOf(state.active, id);
      assert Buffered(nodes, chains, was, state.active[i].id);
      ClockIsNew(state);
      NobodyOwns(state, commitId);
      entries.Commit(buffers[id], id, commitId);
      buffers := buffers[commitId := buffers[id]] - {id};
      StampedBuffers(nodes, chains, was, id, commitId);
    }

    lemma ClockIsNew(s: CatalogState)
      requires Inv(s) && s.clock < TRANSACTION_ID_START
      ensures !Listed(s.active, s.recent, s.clock)
    {
    }

    lemma StampedBuffers(nodes: seq<CS.Node>, chains: map<string, seq<nat>>, was: map<nat, seq<nat>>, id: nat, commitId: nat)
      requires Inv(state) && Enabled(state, Event.Commit(id)) && commitId == state.clock && id in was
      requires forall j :: 0 <= j < |state.active| ==> Buffered(nodes, chains, was, state.active[j].id)
      requires forall j :: 0 <= j < |state.recent| ==> Buffered(nodes, chains, was, state.recent[j].commitId)
      requires CS.Owns(entries.nodes, entries.chains, was[id], commitId) && buffers == was[commitId := was[id]] - {id}
      requires forall own, stamp :: stamp != id && stamp != commitId && CS.Owns(nodes, chains, own, stamp) ==>
        CS.Owns(entries.nodes, entries.chains, own, stamp)
      ensures BuffersFor(Stamped(state, id).active, Stamped(state, id).recent)
    {
      var i := IndexOf(state.active, id);
      WithoutAt(state.active, i);
      forall j | 0 <= j < |state.active| - 1
        ensures Buffered(entries.nodes, entries.chains, buffers, Without(state.active, i)[j].id)
      {
        assert Buffered(nodes, chains, was, state.active[if j < i then j else j + 1].id);
      }
      forall j | 0 <= j < |state.recent| ensures Buffered(entries.nodes, entries.chains, buffers, state.recent[j].commitId) {
        assert Buffered(nodes, chains, was, state.recent[j].commitId);
      }
    }

    /** Rolls back: everything the transaction created or dropped is undone, newest first. */
    method Rollback(id: nat, expired: seq<nat>)
      requires Valid() && IsActive(state, id) && expired == ExpiredIds(Reverted(state, id))
      modifies this, entries
      ensures Valid() && history == old(history) + [Event.Rollback(id)] && state == RollbackStep(old(state), id)
    {
      RevertAll(id);
      RollbackKeepsUnlisted(state, id);
      CleanupExpired(expired, Reverted(state, id));
      Finish(Event.Rollback(id), Reverted(state, id));
    }

    method RevertAll(id: nat)
      requires Sound(state) && IsActive(state, id)
      modifies this`buffers, entries
      ensures entries.Valid() && Shows(Reverted(state, id).cells) && BuffersFor(Reverted(state, id).active, Reverted(state, id).recent)
    {
      ghost var nodes, chains, was := entries.nodes, entries.chains, buffers;
      ghost var i := IndexOf(state.active, id);
      assert Buffered(nodes, chains, was, state.active[i].id);
      ChainsWellFormed(state);
      entries.Rollback(buffers[id], id);
      buffers := buffers - {id};
      WithoutAt(state.active, i);
      forall j | 0 <= j < |state.active| - 1 ensures Without(state.active, i)[j].id != id {
        assert Without(state.active, i)[j] == state.active[if j < i then j else j + 1];
      }
      OthersBuffered(nodes, chains, was, id, Without(state.active, i), state.recent, state.recent);
    }

    lemma ChainsWellFormed(s: CatalogState)
      requires Inv(s) && entries.Valid() && Shows(s.cells)
      ensures entries.AllWellFormed()
    {
      forall name | name in entries.chains ensures WellFormed(CS.CellIn(entries.nodes, entries.chains, name)) {
        assert entries.CellOf(name) == CellAt(s.cells, name);
      }
    }
  }
}
