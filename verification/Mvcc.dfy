/** The transaction manager and the version chains as one transition system.

  Every public operation is one atomic event.  Keys stand for row slots and catalog names alike. */
module Mvcc {
  import opened Versions

  const MAXIMUM_QUERY_ID: nat := 0xFFFF_FFFF_FFFF_FFFF

  /** `query` is MAXIMUM_QUERY_ID while the transaction runs no query. */
  datatype Active = Active(id: nat, start: nat, query: nat) {
    function AsReader(): Reader { Reader(id, start) }
  }

  datatype Committed = Committed(id: nat, commitId: nat)

  /** `highest` is the query number next in line when the transaction's undo data was unlinked. */
  datatype Retired = Retired(id: nat, highest: nat)

  datatype State<K, T> = State(
    clock: nat, nextId: nat, nextQuery: nat,
    active: seq<Active>, recent: seq<Committed>, retired: seq<Retired>,
    cells: map<K, Cell<T>>)

  /** A row that is deleted already can still be written: that is a Rewrite.  Its undo record keeps the data that the row
      had, and forgets that it was deleted. */
  datatype Event<K, T> =
    | Begin
    | Write(id: nat, key: K, value: Option<T>)
    | Rewrite(id: nat, key: K, data: T, value: Option<T>)
    | Commit(id: nat)
    | Rollback(id: nat)
    | BeginQuery(id: nat)
    | EndQuery(id: nat)

  predicate Writes<K, T>(e: Event<K, T>) { e.Write? || e.Rewrite? }

  function Init<K, T>(): State<K, T> {
    State(0, TRANSACTION_ID_START, 1, [], [], [], map[])
  }

  function CellAt<K, T>(cells: map<K, Cell<T>>, k: K): Cell<T> {
    if k in cells then cells[k] else Cell(None, [])
  }

  /** The position of a transaction in the active list, or its length. */
  function IndexOf(active: seq<Active>, id: nat): (i: nat)
    ensures i <= |active|
    ensures i < |active| ==> active[i].id == id
    ensures i == |active| ==> forall j :: 0 <= j < |active| ==> active[j].id != id
  {
    if active == [] || active[0].id == id then 0 else 1 + IndexOf(active[1..], id)
  }

  predicate IsActive<K, T>(s: State<K, T>, id: nat) {
    IndexOf(s.active, id) < |s.active|
  }

  function Min(a: nat, b: nat): nat { if a <= b then a else b }

  function LowestStart(active: seq<Active>): nat {
    if active == [] then TRANSACTION_ID_START else Min(active[0].start, LowestStart(active[1..]))
  }

  function LowestQuery(active: seq<Active>): nat {
    if active == [] then MAXIMUM_QUERY_ID else Min(active[0].query, LowestQuery(active[1..]))
  }

  /** How many of the oldest committed transactions no active transaction needs. */
  function Expired(recent: seq<Committed>, floor: nat): (n: nat)
    ensures n <= |recent|
  {
    if recent == [] || floor <= recent[0].commitId then 0 else 1 + Expired(recent[1..], floor)
  }

  function RetireAll(gone: seq<Committed>, highest: nat): (r: seq<Retired>)
    ensures |r| == |gone|
  {
    seq(|gone|, i requires 0 <= i < |gone| => Retired(gone[i].id, highest))
  }

  /** How many of the unlinked transactions no running query can still use. */
  function Freeable(waiting: seq<Retired>, lowest: nat): (n: nat)
    ensures n <= |waiting|
  {
    if waiting == [] || lowest <= waiting[0].highest then 0 else 1 + Freeable(waiting[1..], lowest)
  }

  function MapRestamp<K, T>(cells: map<K, Cell<T>>, id: nat, commitId: nat): map<K, Cell<T>> {
    map k | k in cells :: Restamp(cells[k], id, commitId)
  }

  function MapRevert<K, T>(cells: map<K, Cell<T>>, id: nat): map<K, Cell<T>> {
    map k | k in cells :: Revert(cells[k], id)
  }

  function MapPurge<K, T>(cells: map<K, Cell<T>>, floor: nat): map<K, Cell<T>> {
    map k | k in cells :: Purge(cells[k], floor)
  }

  function Without(active: seq<Active>, i: nat): seq<Active>
    requires i < |active|
  {
    active[..i] + active[i + 1..]
  }

  /** The transaction at position i leaves; commitId is 0 after a rollback. */
  function Unlist<K, T>(s: State<K, T>, i: nat, commitId: nat): State<K, T>
    requires i < |s.active|
  {
    var id := s.active[i].id;
    s.(active := Without(s.active, i),
       recent := if commitId != 0 then s.recent + [Committed(id, commitId)] else s.recent,
       retired := if commitId != 0 then s.retired else s.retired + [Retired(id, s.nextQuery)])
  }

  /** Unlinks the undo data nobody can need and frees what no running query can use. */
  function Collect<K, T>(s: State<K, T>): State<K, T> {
    var floor := LowestStart(s.active);
    var n := Expired(s.recent, floor);
    var retired := s.retired + RetireAll(s.recent[..n], s.nextQuery);
    var m := if s.active == [] then |retired| else Freeable(retired, LowestQuery(s.active));
    s.(recent := s.recent[n..], retired := retired[m..], cells := MapPurge(s.cells, floor))
  }

  predicate Enabled<K, T>(s: State<K, T>, e: Event<K, T>) {
    match e
    case Begin => s.clock < TRANSACTION_ID_START
    case Write(id, k, v) => IsActive(s, id) && !Conflicts(CellAt(s.cells, k), id)
    case Rewrite(id, k, _, v) => IsActive(s, id) && !Conflicts(CellAt(s.cells, k), id) && CellAt(s.cells, k).cur.None?
    case Commit(id) => IsActive(s, id) && s.clock < TRANSACTION_ID_START
    case Rollback(id) => IsActive(s, id)
    case BeginQuery(id) =>
      && IsActive(s, id) && s.nextQuery < MAXIMUM_QUERY_ID
      && s.active[IndexOf(s.active, id)].query == MAXIMUM_QUERY_ID
    case EndQuery(id) => IsActive(s, id)
  }

  function BeginStep<K, T>(s: State<K, T>): State<K, T> {
    if s.clock < TRANSACTION_ID_START
    then s.(clock := s.clock + 1, nextId := s.nextId + 1,
            active := s.active + [Active(s.nextId, s.clock, MAXIMUM_QUERY_ID)])
    else s
  }

  function WriteStep<K, T>(s: State<K, T>, id: nat, k: K, v: Option<T>): State<K, T> {
    if IsActive(s, id) && !Conflicts(CellAt(s.cells, k), id)
    then s.(cells := s.cells[k := Overwrite(CellAt(s.cells, k), id, v)]) else s
  }

  function RewriteStep<K, T>(s: State<K, T>, id: nat, k: K, data: T, v: Option<T>): State<K, T> {
    s.(cells := s.cells[k := Touched(CellAt(s.cells, k), data, id, v)])
  }

  function CommitStep<K, T>(s: State<K, T>, id: nat): State<K, T>
    requires IsActive(s, id)
  {
    var stamped := s.(clock := s.clock + 1, cells := MapRestamp(s.cells, id, s.clock));
    Collect(Unlist(stamped, IndexOf(s.active, id), s.clock))
  }

  function RollbackStep<K, T>(s: State<K, T>, id: nat): State<K, T>
    requires IsActive(s, id)
  {
    var reverted := s.(cells := MapRevert(s.cells, id));
    Collect(Unlist(reverted, IndexOf(s.active, id), 0))
  }

  function SetQuery<K, T>(s: State<K, T>, id: nat, q: nat): State<K, T>
    requires IsActive(s, id)
  {
    var i := IndexOf(s.active, id);
    s.(active := s.active[i := s.active[i].(query := q)])
  }

  /** A refused event leaves the state unchanged. */
  function Apply<K, T>(s: State<K, T>, e: Event<K, T>): State<K, T> {
    if !Enabled(s, e) then s else
    match e
    case Begin => BeginStep(s)
    case Write(id, k, v) => WriteStep(s, id, k, v)
    case Rewrite(id, k, data, v) => RewriteStep(s, id, k, data, v)
    case Commit(id) => CommitStep(s, id)
    case Rollback(id) => RollbackStep(s, id)
    case BeginQuery(id) => SetQuery(s, id, s.nextQuery).(nextQuery := s.nextQuery + 1)
    case EndQuery(id) => SetQuery(s, id, MAXIMUM_QUERY_ID)
  }

  function Run<K, T>(es: seq<Event<K, T>>): State<K, T> {
    if es == [] then Init() else Apply(Run(es[..|es| - 1]), es[|es| - 1])
  }

  // ----- the invariant of every reachable state -----

  ghost predicate Listed(active: seq<Active>, recent: seq<Committed>, stamp: nat) {
    || (exists i :: 0 <= i < |active| && active[i].id == stamp)
    || (exists j :: 0 <= j < |recent| && recent[j].commitId == stamp)
  }

  ghost predicate InvActive(active: seq<Active>, clock: nat, nextId: nat) {
    && (forall i :: 0 <= i < |active| ==> TRANSACTION_ID_START <= active[i].id < nextId && active[i].start < clock)
    && (forall i, j :: 0 <= i < j < |active| ==> active[i].id < active[j].id && active[i].start < active[j].start)
  }

  ghost predicate InvRecent(recent: seq<Committed>, clock: nat) {
    && (forall i :: 0 <= i < |recent| ==> 0 < recent[i].commitId < clock)
    && (forall i, j :: 0 <= i < j < |recent| ==> recent[i].commitId < recent[j].commitId)
  }

  ghost predicate Distinct(active: seq<Active>, recent: seq<Committed>) {
    forall i, j :: 0 <= i < |active| && 0 <= j < |recent| ==> active[i].start != recent[j].commitId
  }

  /** Start times and commit ids are all distinct and below every transaction id. */
  ghost predicate InvTransactions<K, T>(s: State<K, T>) {
    && s.clock <= TRANSACTION_ID_START <= s.nextId
    && InvActive(s.active, s.clock, s.nextId)
    && InvRecent(s.recent, s.clock)
    && Distinct(s.active, s.recent)
  }

  ghost predicate InvCell<T>(c: Cell<T>, active: seq<Active>, recent: seq<Committed>) {
    && WellFormed(c)
    && forall i :: 0 <= i < |c.undo| ==> Listed(active, recent, c.undo[i].stamp)
  }

  ghost predicate InvCells<K, T>(s: State<K, T>) {
    forall k :: k in s.cells ==> InvCell(s.cells[k], s.active, s.recent)
  }

  ghost predicate Inv<K, T>(s: State<K, T>) {
    InvTransactions(s) && InvCells(s)
  }

  lemma {:induction false} LowestStartIsMin(active: seq<Active>)
    ensures forall i :: 0 <= i < |active| ==> LowestStart(active) <= active[i].start
    ensures LowestStart(active) <= TRANSACTION_ID_START
    ensures LowestStart(active) == TRANSACTION_ID_START || exists i :: 0 <= i < |active| && active[i].start == LowestStart(active)
  {
    if active != [] {
      LowestStartIsMin(active[1..]);
      assert forall i :: 0 < i < |active| ==> active[i] == active[1..][i - 1];
    }
  }

  lemma {:induction false} LowestQueryIsMin(active: seq<Active>)
    ensures forall i :: 0 <= i < |active| ==> LowestQuery(active) <= active[i].query
    ensures LowestQuery(active) <= MAXIMUM_QUERY_ID
  {
    if active != [] {
      LowestQueryIsMin(active[1..]);
      assert forall i :: 0 < i < |active| ==> active[i] == active[1..][i - 1];
    }
  }

  /** The cut in the list of committed transactions separates the ids below the floor from the rest. */
  lemma {:induction false} ExpiredSplits(recent: seq<Committed>, floor: nat)
    requires forall i, j :: 0 <= i < j < |recent| ==> recent[i].commitId < recent[j].commitId
    ensures forall i :: 0 <= i < |recent| ==> (recent[i].commitId < floor <==> i < Expired(recent, floor))
  {
    if recent != [] {
      var t := recent[1..];
      assert forall i :: 0 <= i < |t| ==> t[i] == recent[i + 1];
      ExpiredSplits(t, floor);
      forall i | 0 <= i < |recent| ensures recent[i].commitId < floor <==> i < Expired(recent, floor) {
        if i > 0 { assert recent[i] == t[i - 1]; }
      }
    }
  }

  lemma WithoutAt(active: seq<Active>, i: nat)
    requires i < |active|
    ensures |Without(active, i)| == |active| - 1
    ensures forall j :: 0 <= j < |Without(active, i)| ==> Without(active, i)[j] == active[if j < i then j else j + 1]
  {
  }

  lemma ListedWithout(active: seq<Active>, i: nat, recent: seq<Committed>, recent': seq<Committed>, stamp: nat)
    requires i < |active| && Listed(active, recent, stamp) && stamp != active[i].id && recent <= recent'
    ensures Listed(Without(active, i), recent', stamp)
  {
    if j :| 0 <= j < |active| && active[j].id == stamp {
      assert Without(active, i)[if j < i then j else j - 1] == active[j];
    } else {
      var j :| 0 <= j < |recent| && recent[j].commitId == stamp;
      assert recent'[j] == recent[j];
    }
  }

  lemma WithoutKeeps(active: seq<Active>, i: nat, clock: nat, nextId: nat, recent: seq<Committed>)
    requires i < |active| && InvActive(active, clock, nextId) && Distinct(active, recent)
    ensures InvActive(Without(active, i), clock, nextId) && Distinct(Without(active, i), recent)
  {
    WithoutAt(active, i);
  }

  lemma UnlistKeepsTransactions<K, T>(s: State<K, T>, i: nat, commitId: nat)
    requires InvTransactions(s) && i < |s.active| && commitId < s.clock
    requires forall j :: 0 <= j < |s.recent| ==> commitId == 0 || s.recent[j].commitId < commitId
    requires forall j :: 0 <= j < |s.active| ==> commitId == 0 || s.active[j].start != commitId
    ensures InvTransactions(Unlist(s, i, commitId))
  {
    var t := Unlist(s, i, commitId);
    assert InvRecent(t.recent, s.clock);
    assert Distinct(s.active, t.recent);
    WithoutKeeps(s.active, i, s.clock, s.nextId, t.recent);
  }

  lemma CollectKeepsTransactions<K, T>(s: State<K, T>)
    requires InvTransactions(s)
    ensures InvTransactions(Collect(s))
  {
    ExpiredSplits(s.recent, LowestStart(s.active));
  }

  lemma CollectKeepsCells<K, T>(s: State<K, T>)
    requires Inv(s)
    ensures InvCells(Collect(s))
  {
    var floor := LowestStart(s.active);
    var n := Expired(s.recent, floor);
    ExpiredSplits(s.recent, floor);
    LowestStartIsMin(s.active);
    forall k | k in s.cells ensures InvCell(Purge(s.cells[k], floor), s.active, s.recent[n..]) {
      var c := s.cells[k];
      var d := Purge(c, floor);
      PurgeShape(c, floor);
      forall i | 0 <= i < |d.undo| ensures Listed(s.active, s.recent[n..], d.undo[i].stamp) {
        assert d.undo[i] == c.undo[i];
        if j :| 0 <= j < |s.active| && s.active[j].id == c.undo[i].stamp {
        } else {
          var j :| 0 <= j < |s.recent| && s.recent[j].commitId == c.undo[i].stamp;
          assert s.recent[n..][j - n] == s.recent[j];
        }
      }
    }
  }

  lemma RestampKeepsCell<T>(c: Cell<T>, active: seq<Active>, recent: seq<Committed>, clock: nat, nextId: nat, i: nat)
    requires InvCell(c, active, recent) && InvActive(active, clock, nextId) && InvRecent(recent, clock)
    requires i < |active| && clock < TRANSACTION_ID_START
    ensures InvCell(Restamp(c, active[i].id, clock), Without(active, i), recent + [Committed(active[i].id, clock)])
  {
    var id, recent' := active[i].id, recent + [Committed(active[i].id, clock)];
    var d := Restamp(c, id, clock);
    forall j | 0 <= j < |c.undo| && !Uncommitted(c.undo[j].stamp) ensures c.undo[j].stamp <= clock {
      assert Listed(active, recent, c.undo[j].stamp);
    }
    RestampShape(c, id, clock);
    forall j | 0 <= j < |d.undo| ensures Listed(Without(active, i), recent', d.undo[j].stamp) {
      if c.undo[j].stamp == id {
        assert recent'[|recent|].commitId == clock;
      } else {
        ListedWithout(active, i, recent, recent', c.undo[j].stamp);
      }
    }
  }

  /** The state between restamping and collecting. */
  lemma CommitKeepsUnlisted<K, T>(s: State<K, T>, id: nat)
    requires Inv(s) && Enabled(s, Commit(id))
    ensures Inv(Unlist(s.(clock := s.clock + 1, cells := MapRestamp(s.cells, id, s.clock)), IndexOf(s.active, id), s.clock))
  {
    var i, c := IndexOf(s.active, id), s.clock;
    var stamped := s.(clock := c + 1, cells := MapRestamp(s.cells, id, c));
    assert s.active[i].id == id && 0 < c;
    UnlistKeepsTransactions(stamped, i, c);
    var t := Unlist(stamped, i, c);
    forall k | k in s.cells ensures InvCell(t.cells[k], t.active, t.recent) {
      RestampKeepsCell(s.cells[k], s.active, s.recent, c, s.nextId, i);
    }
  }

  lemma RevertKeepsCell<T>(c: Cell<T>, active: seq<Active>, recent: seq<Committed>, i: nat)
    requires InvCell(c, active, recent) && i < |active| && Uncommitted(active[i].id)
    ensures InvCell(Revert(c, active[i].id), Without(active, i), recent)
  {
    var d := Revert(c, active[i].id);
    RevertShape(c, active[i].id);
    forall j | 0 <= j < |d.undo| ensures Listed(Without(active, i), recent, d.undo[j].stamp) {
      assert d.undo[j] == c.undo[|c.undo| - |d.undo| + j];
      ListedWithout(active, i, recent, recent, d.undo[j].stamp);
    }
  }

  /** The state between reverting and collecting. */
  lemma RollbackKeepsUnlisted<K, T>(s: State<K, T>, id: nat)
    requires Inv(s) && IsActive(s, id)
    ensures Inv(Unlist(s.(cells := MapRevert(s.cells, id)), IndexOf(s.active, id), 0))
  {
    var i := IndexOf(s.active, id);
    var reverted := s.(cells := MapRevert(s.cells, id));
    assert s.active[i].id == id;
    UnlistKeepsTransactions(reverted, i, 0);
    var t := Unlist(reverted, i, 0);
    forall k | k in s.cells ensures InvCell(t.cells[k], t.active, t.recent) {
      RevertKeepsCell(s.cells[k], s.active, s.recent, i);
    }
  }

  lemma CollectKeepsInv<K, T>(s: State<K, T>)
    requires Inv(s)
    ensures Inv(Collect(s))
  {
    CollectKeepsTransactions(s);
    CollectKeepsCells(s);
  }

  lemma WriteKeepsInv<K, T>(s: State<K, T>, id: nat, k: K, v: Option<T>)
    requires Inv(s) && Enabled(s, Write(id, k, v))
    ensures Inv(Apply(s, Write(id, k, v)))
  {
    var c := CellAt(s.cells, k);
    OverwriteWellFormed(c, id, v);
    var d := Overwrite(c, id, v);
    assert s.active[IndexOf(s.active, id)].id == id;
    assert forall i :: 0 < i < |d.undo| ==> d.undo[i] == c.undo[i - 1];
  }

  lemma RewriteKeepsInv<K, T>(s: State<K, T>, id: nat, k: K, data: T, v: Option<T>)
    requires Inv(s) && Enabled(s, Rewrite(id, k, data, v))
    ensures Inv(Apply(s, Rewrite(id, k, data, v)))
  {
    var c := CellAt(s.cells, k);
    TouchedWellFormed(c, data, id, v);
    var d := Touched(c, data, id, v);
    assert s.active[IndexOf(s.active, id)].id == id;
    assert forall i :: 0 < i < |d.undo| ==> d.undo[i] == c.undo[i - 1];
  }

  lemma ListedMono(active: seq<Active>, active': seq<Active>, recent: seq<Committed>, stamp: nat)
    requires Listed(active, recent, stamp) && |active| <= |active'|
    requires forall i :: 0 <= i < |active| ==> active'[i].id == active[i].id
    ensures Listed(active', recent, stamp)
  {
    if i :| 0 <= i < |active| && active[i].id == stamp { assert active'[i].id == stamp; }
  }

  /** Starting a transaction or changing a running query touches no chain. */
  lemma ActiveKeepsInv<K, T>(s: State<K, T>, t: State<K, T>)
    requires Inv(s) && InvTransactions(t)
    requires t.cells == s.cells && t.recent == s.recent && |s.active| <= |t.active|
    requires forall i :: 0 <= i < |s.active| ==> t.active[i].id == s.active[i].id
    ensures Inv(t)
  {
    forall k, i | k in s.cells && 0 <= i < |s.cells[k].undo|
      ensures Listed(t.active, t.recent, s.cells[k].undo[i].stamp)
    {
      ListedMono(s.active, t.active, s.recent, s.cells[k].undo[i].stamp);
    }
  }

  lemma BeginKeepsInv<K, T>(s: State<K, T>)
    requires Inv(s) && Enabled(s, Begin)
    ensures Inv(Apply(s, Begin))
  {
    var t := Apply(s, Begin);
    assert InvActive(t.active, t.clock, t.nextId);
    ActiveKeepsInv(s, t);
  }

  lemma SetQueryKeepsInv<K, T>(s: State<K, T>, id: nat, q: nat, nextQuery: nat)
    requires Inv(s) && IsActive(s, id)
    ensures Inv(SetQuery(s, id, q).(nextQuery := nextQuery))
  {
    var t := SetQuery(s, id, q).(nextQuery := nextQuery);
    assert InvActive(t.active, t.clock, t.nextId);
    assert Distinct(t.active, t.recent);
    ActiveKeepsInv(s, t);
  }

  /** Every event keeps the chain shape and the order of starts and commit ids. */
  lemma ApplyKeepsInv<K, T>(s: State<K, T>, e: Event<K, T>)
    requires Inv(s)
    ensures Inv(Apply(s, e))
  {
    if Enabled(s, e) {
      match e
      case Begin => BeginKeepsInv(s);
      case Write(id, k, v) => WriteKeepsInv(s, id, k, v);
      case Rewrite(id, k, data, v) => RewriteKeepsInv(s, id, k, data, v);
      case Commit(id) =>
        CommitKeepsUnlisted(s, id);
        CollectKeepsInv(Unlist(s.(clock := s.clock + 1, cells := MapRestamp(s.cells, id, s.clock)), IndexOf(s.active, id), s.clock));
      case Rollback(id) =>
        RollbackKeepsUnlisted(s, id);
        CollectKeepsInv(Unlist(s.(cells := MapRevert(s.cells, id)), IndexOf(s.active, id), 0));
      case BeginQuery(id) => SetQueryKeepsInv(s, id, s.nextQuery, s.nextQuery + 1);
      case EndQuery(id) => SetQueryKeepsInv(s, id, MAXIMUM_QUERY_ID, s.nextQuery);
    }
  }

  lemma {:induction false} RunKeepsInv<K, T>(es: seq<Event<K, T>>)
    ensures Inv(Run(es))
  {
    if es != [] {
      RunKeepsInv(es[..|es| - 1]);
      ApplyKeepsInv(Run(es[..|es| - 1]), es[|es| - 1]);
    }
  }
}
