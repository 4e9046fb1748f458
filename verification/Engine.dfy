/** The transaction manager and the row operations of a table, on the real chains.

  Every method is proved to do exactly the event of the transition system, so everything proved
  about its runs holds for any sequence of calls. */
module Engine {
  import opened Versions
  import opened Mvcc
  import opened TableStorage
  import opened Snapshot
  import opened Reference
  import opened Removal
  import UB = UndoBuffer

  datatype Transaction = Transaction(
    startTime: nat, id: nat, commitId: nat, highestActiveQuery: nat, activeQuery: nat, entries: seq<UB.UndoEntry>)

  function Actives(ts: seq<Transaction>): (a: seq<Active>)
    ensures |a| == |ts| && forall i :: 0 <= i < |a| ==> a[i] == Active(ts[i].id, ts[i].startTime, ts[i].activeQuery)
  {
    seq(|ts|, i requires 0 <= i < |ts| => Active(ts[i].id, ts[i].startTime, ts[i].activeQuery))
  }

  function Committeds(ts: seq<Transaction>): (c: seq<Committed>)
    ensures |c| == |ts| && forall i :: 0 <= i < |c| ==> c[i] == Committed(ts[i].id, ts[i].commitId)
  {
    seq(|ts|, i requires 0 <= i < |ts| => Committed(ts[i].id, ts[i].commitId))
  }

  function Retireds(ts: seq<Transaction>): (r: seq<Retired>)
    ensures |r| == |ts| && forall i :: 0 <= i < |r| ==> r[i] == Retired(ts[i].id, ts[i].highestActiveQuery)
  {
    seq(|ts|, i requires 0 <= i < |ts| => Retired(ts[i].id, ts[i].highestActiveQuery))
  }

  type History = seq<Event<nat, Tuple>>

  function WriteEvents(id: nat, slots: seq<nat>, values: seq<Option<Tuple>>): (es: History)
    requires |slots| == |values|
    ensures |es| == |slots| && forall i :: 0 <= i < |es| ==> es[i] == Write(id, slots[i], values[i])
  {
    seq(|slots|, i requires 0 <= i < |slots| => Write(id, slots[i], values[i]))
  }

  /** Run(h).  The counter only keeps the verifier from unfolding a whole run wherever one is mentioned. */
  ghost function Folded(h: History, n: nat := CLOSED): State<nat, Tuple>
    decreases |h|, n
  {
    if n == 0 then Run(h) else Folded(h, n - 1)
  }

  /** The state that a history leads to. */
  ghost function After(h: History): State<nat, Tuple> { Folded(h) }

  lemma {:induction false} FoldedIsRun(h: History, n: nat := CLOSED)
    ensures Folded(h, n) == Run(h)
    decreases n
  {
    if n > 0 { FoldedIsRun(h, n - 1); }
  }

  /** The engine's states are those of the transition system. */
  lemma AfterIsRun(h: History)
    ensures After(h) == Run(h)
  {
    FoldedIsRun(h);
  }

  lemma AfterStep(h: History, e: Event<nat, Tuple>)
    ensures After(h + [e]) == Apply(After(h), e)
  {
    AfterIsRun(h);
    AfterIsRun(h + [e]);
    assert (h + [e])[..|h|] == h;
  }

  lemma AfterInv(h: History)
    ensures Inv(After(h))
  {
    AfterIsRun(h);
    RunKeepsInv(h);
  }

  lemma AfterWrite(h: History, id: nat, slot: nat, v: Option<Tuple>)
    ensures After(h + [Write(id, slot, v)]) == WriteStep(After(h), id, slot, v)
  {
    AfterStep(h, Write(id, slot, v));
  }

  lemma AfterBegin(h: History)
    ensures After(h + [Begin]) == BeginStep(After(h))
  {
    AfterStep(h, Begin);
  }

  lemma AfterQuery(h: History, id: nat)
    requires Enabled(After(h), BeginQuery(id))
    ensures After(h + [BeginQuery(id)]) == SetQuery(After(h), id, After(h).nextQuery).(nextQuery := After(h).nextQuery + 1)
  {
    AfterStep(h, BeginQuery(id));
  }

  lemma AfterCommit(h: History, id: nat)
    requires Enabled(After(h), Commit(id))
    ensures After(h + [Commit(id)]) == CommitStep(After(h), id)
  {
    AfterStep(h, Commit(id));
  }

  lemma AfterRollback(h: History, id: nat)
    requires IsActive(After(h), id)
    ensures After(h + [Rollback(id)]) == RollbackStep(After(h), id)
  {
    AfterStep(h, Rollback(id));
  }

  lemma AfterEndQuery(h: History, id: nat)
    requires IsActive(After(h), id)
    ensures After(h + [EndQuery(id)]) == SetQuery(After(h), id, MAXIMUM_QUERY_ID)
  {
    AfterStep(h, EndQuery(id));
  }

  /** How many rows come before the first one that somebody else has an uncommitted write on. */
  ghost function Accepted(cells: map<nat, Cell<Tuple>>, id: nat, slots: seq<nat>): (n: nat)
    ensures n <= |slots|
  {
    if slots == [] || Conflicts(CellAt(cells, slots[0]), id) then 0 else 1 + Accepted(cells, id, slots[1..])
  }

  lemma {:induction false} AcceptedIs(cells: map<nat, Cell<Tuple>>, id: nat, slots: seq<nat>, n: nat)
    requires n <= |slots| && forall i :: 0 <= i < n ==> !Conflicts(CellAt(cells, slots[i]), id)
    requires n == |slots| || Conflicts(CellAt(cells, slots[n]), id)
    ensures Accepted(cells, id, slots) == n
  {
    if slots != [] && n > 0 {
      AcceptedIs(cells, id, slots[1..], n - 1);
    }
  }

  lemma {:induction false} AcceptedSplits(cells: map<nat, Cell<Tuple>>, id: nat, slots: seq<nat>)
    ensures forall i :: 0 <= i < Accepted(cells, id, slots) ==> !Conflicts(CellAt(cells, slots[i]), id)
    ensures Accepted(cells, id, slots) < |slots| ==> Conflicts(CellAt(cells, slots[Accepted(cells, id, slots)]), id)
  {
    if slots != [] && !Conflicts(CellAt(cells, slots[0]), id) {
      AcceptedSplits(cells, id, slots[1..]);
      var n := Accepted(cells, id, slots);
      assert forall i :: 0 < i < n ==> slots[i] == slots[1..][i - 1];
    }
  }

  /** A row is refused if and only if another running transaction has written it. */
  lemma RefusedExactly(h: History, id: nat, slot: nat)
    requires Clean(h) && IsActive(After(h), id)
    ensures Conflicts(CellAt(After(h).cells, slot), id) <==> WrittenByOther(SpecRun(h), id, slot)
  {
    AfterIsRun(h);
    WriteAcceptedExactly(h, id, slot, None);
    ViewsAreOfActive(h, id);
  }

  /** The rows before the first refused one are those before the first that another running transaction has written. */
  lemma StopsExactly(h: History, id: nat, slots: seq<nat>)
    requires Clean(h) && IsActive(After(h), id)
    ensures var n := Accepted(After(h).cells, id, slots);
      && NobodyElseWrote(h, id, slots[..n])
      && (n < |slots| ==> WrittenByOther(SpecRun(h), id, slots[n]))
    ensures Accepted(After(h).cells, id, slots) == |slots| <==> NobodyElseWrote(h, id, slots)
  {
    var n := Accepted(After(h).cells, id, slots);
    AcceptedSplits(After(h).cells, id, slots);
    NobodyElseWroteIs(h, id, slots[..n]);
    NobodyElseWroteIs(h, id, slots);
    forall i | 0 <= i < |slots| { RefusedExactly(h, id, slots[i]); }
    assert n == |slots| ==> slots[..n] == slots;
  }

  /** The transaction may write the row, live or deleted. */
  ghost predicate Writable(s: State<nat, Tuple>, id: nat, slot: nat) {
    slot in s.cells && IsActive(s, id) && !Conflicts(s.cells[slot], id)
  }

  ghost predicate AllLive(s: State<nat, Tuple>, slots: seq<nat>) {
    forall i :: 0 <= i < |slots| ==> slots[i] in s.cells && s.cells[slots[i]].cur.Some?
  }

  /** Writes to rows leave the other rows alone. */
  lemma {:induction false} WritesLeaveOthers(h: History, id: nat, slots: seq<nat>, values: seq<Option<Tuple>>)
    requires |slots| == |values| && IsActive(After(h), id)
    ensures var t := After(h + WriteEvents(id, slots, values));
      && IsActive(t, id) && After(h).cells.Keys <= t.cells.Keys
      && forall slot :: slot in After(h).cells && slot !in slots ==> t.cells[slot] == After(h).cells[slot]
  {
    if slots == [] {
      assert h + WriteEvents(id, slots, values) == h;
    } else {
      var n := |slots| - 1;
      WritesLeaveOthers(h, id, slots[..n], values[..n]);
      WriteEventsStep(h, id, slots, values, n);
      assert slots[..n + 1] == slots && values[..n + 1] == values;
      AfterWrite(h + WriteEvents(id, slots[..n], values[..n]), id, slots[n], values[n]);
      assert slots == slots[..n] + [slots[n]];
    }
  }

  lemma StaysActive(h: History, id: nat, slots: seq<nat>, values: seq<Option<Tuple>>)
    requires |slots| == |values| && IsActive(After(h), id)
    ensures IsActive(After(h + WriteEvents(id, slots, values)), id)
  {
    WritesLeaveOthers(h, id, slots, values);
  }

  lemma WriteEventsStep(h: History, id: nat, slots: seq<nat>, values: seq<Option<Tuple>>, k: nat)
    requires |slots| == |values| && k < |slots|
    ensures h + WriteEvents(id, slots[..k + 1], values[..k + 1])
         == h + WriteEvents(id, slots[..k], values[..k]) + [Write(id, slots[k], values[k])]
  {
    var es := WriteEvents(id, slots[..k + 1], values[..k + 1]);
    assert es == WriteEvents(id, slots[..k], values[..k]) + [Write(id, slots[k], values[k])];
  }

  /** What the rows hold. */
  ghost function Contents(s: State<nat, Tuple>, slots: seq<nat>): (values: seq<Option<Tuple>>)
    ensures |values| == |slots| && forall i :: 0 <= i < |slots| ==> values[i] == CellAt(s.cells, slots[i]).cur
  {
    seq(|slots|, i requires 0 <= i < |slots| => CellAt(s.cells, slots[i]).cur)
  }

  /** What the rows hold after an update. */
  ghost function Updated(s: State<nat, Tuple>, slots: seq<nat>, columnIds: seq<nat>, updates: seq<seq<int>>): (values: seq<Option<Tuple>>)
    requires AllLive(s, slots) && |updates| == |columnIds|
    requires forall j :: 0 <= j < |updates| ==> |updates[j]| == |slots|
    ensures |values| == |slots| && forall i :: 0 <= i < |slots| ==>
      values[i] == Some(Assigned(s.cells[slots[i]].cur.value, columnIds, RowValues(updates, i)))
  {
    seq(|slots|, i requires 0 <= i < |slots| => Some(Assigned(s.cells[slots[i]].cur.value, columnIds, RowValues(updates, i))))
  }

  // ----- rows that are deleted already -----

  /** The write of a row, live or deleted, whose base row holds the data. */
  ghost function RowWrite(c: Cell<Tuple>, id: nat, slot: nat, data: Tuple, v: Option<Tuple>): Event<nat, Tuple> {
    if c.cur.Some? then Write(id, slot, v) else Rewrite(id, slot, data, v)
  }

  ghost function DataOf(columns: seq<Tuple>, slot: nat): Tuple {
    if slot < |columns| then columns[slot] else []
  }

  /** The events of a delete: a row that comes again is deleted already. */
  ghost function EraseEvents(s: State<nat, Tuple>, id: nat, slots: seq<nat>, columns: seq<Tuple>): (es: History)
    ensures |es| == |slots|
    ensures forall i :: 0 <= i < |es| ==>
      es[i] == (if slots[i] in slots[..i] then Rewrite(id, slots[i], DataOf(columns, slots[i]), None)
                else RowWrite(CellAt(s.cells, slots[i]), id, slots[i], DataOf(columns, slots[i]), None))
  {
    seq(|slots|, i requires 0 <= i < |slots| =>
      if slots[i] in slots[..i] then Rewrite(id, slots[i], DataOf(columns, slots[i]), None)
      else RowWrite(CellAt(s.cells, slots[i]), id, slots[i], DataOf(columns, slots[i]), None))
  }

  /** The events of the first half of an update, which leaves the contents of the rows as they are. */
  ghost function TouchEvents(s: State<nat, Tuple>, id: nat, slots: seq<nat>, columns: seq<Tuple>): (es: History)
    ensures |es| == |slots|
    ensures forall i :: 0 <= i < |es| ==>
      es[i] == RowWrite(CellAt(s.cells, slots[i]), id, slots[i], DataOf(columns, slots[i]), CellAt(s.cells, slots[i]).cur)
  {
    seq(|slots|, i requires 0 <= i < |slots| =>
      RowWrite(CellAt(s.cells, slots[i]), id, slots[i], DataOf(columns, slots[i]), CellAt(s.cells, slots[i]).cur))
  }

  /** What the i-th row of an update holds in the end: new values if it is live and does not come again. */
  ghost function StoredValue(c: Cell<Tuple>, slots: seq<nat>, columnIds: seq<nat>, updates: seq<seq<int>>, i: nat): Option<Tuple>
    requires i < |slots| && |updates| == |columnIds| && forall j :: 0 <= j < |updates| ==> |updates[j]| == |slots|
  {
    if c.cur.Some? && IsLast(slots, i) then Some(Assigned(c.cur.value, columnIds, RowValues(updates, i))) else c.cur
  }

  /** The events of an update that has met no conflict. */
  ghost function StoreEvents(s: State<nat, Tuple>, id: nat, slots: seq<nat>, columns: seq<Tuple>,
                             columnIds: seq<nat>, updates: seq<seq<int>>): (es: History)
    requires |updates| == |columnIds| && forall j :: 0 <= j < |updates| ==> |updates[j]| == |slots|
    ensures |es| == |slots|
    ensures forall i :: 0 <= i < |es| ==> es[i] == RowWrite(CellAt(s.cells, slots[i]), id, slots[i], DataOf(columns, slots[i]),
      StoredValue(CellAt(s.cells, slots[i]), slots, columnIds, updates, i))
  {
    seq(|slots|, i requires 0 <= i < |slots| => RowWrite(CellAt(s.cells, slots[i]), id, slots[i], DataOf(columns, slots[i]),
      StoredValue(CellAt(s.cells, slots[i]), slots, columnIds, updates, i)))
  }

  /** Live rows that come once each are simply written. */
  lemma LiveRowsAreWritten(s: State<nat, Tuple>, id: nat, slots: seq<nat>, columns: seq<Tuple>)
    requires AllLive(s, slots) && AllDistinct(slots)
    ensures EraseEvents(s, id, slots, columns) == WriteEvents(id, slots, Nones(|slots|))
    ensures TouchEvents(s, id, slots, columns) == WriteEvents(id, slots, Contents(s, slots))
  {
  }

  lemma LiveRowsAreUpdated(s: State<nat, Tuple>, id: nat, slots: seq<nat>, columns: seq<Tuple>, columnIds: seq<nat>, updates: seq<seq<int>>)
    requires AllLive(s, slots) && AllDistinct(slots)
    requires |updates| == |columnIds| && forall j :: 0 <= j < |updates| ==> |updates[j]| == |slots|
    ensures StoreEvents(s, id, slots, columns, columnIds, updates) == WriteEvents(id, slots, Updated(s, slots, columnIds, updates))
  {
  }

  /** The first k rows have been written by the transaction, each once or more, and are gone or as they were. */
  ghost predicate WrittenUpTo(s: State<nat, Tuple>, t: State<nat, Tuple>, id: nat, slots: seq<nat>, k: nat, gone: bool)
    requires k <= |slots|
  {
    && t == s.(cells := t.cells) && t.cells.Keys == s.cells.Keys
    && forall slot :: slot in s.cells ==>
         if slot in slots[..k]
         then HasOldVersion(t.cells[slot], id) && t.cells[slot].cur == (if gone then None else s.cells[slot].cur)
         else t.cells[slot] == s.cells[slot]
  }

  /** The newest record is the transaction's own, and holds an old version of the row. */
  ghost predicate HasOldVersion(c: Cell<Tuple>, id: nat) {
    OwnedBy(c, id) && c.undo[0].before.Some?
  }

  lemma WrittenNext(s: State<nat, Tuple>, t: State<nat, Tuple>, id: nat, slots: seq<nat>, k: nat, gone: bool, e: Event<nat, Tuple>, data: Tuple)
    requires k < |slots| && WrittenUpTo(s, t, id, slots, k, gone) && slots[k] in s.cells && IsActive(s, id)
    requires !Conflicts(s.cells[slots[k]], id)
    requires e == RowWrite(t.cells[slots[k]], id, slots[k], data, if gone then None else s.cells[slots[k]].cur)
    ensures Writable(t, id, slots[k]) && Enabled(t, e) && WrittenUpTo(s, Apply(t, e), id, slots, k + 1, gone)
  {
    assert slots[..k + 1] == slots[..k] + [slots[k]];
  }

  /** Before the k-th row is written it conflicts exactly when it did in the beginning. */
  lemma ConflictsStay(s: State<nat, Tuple>, t: State<nat, Tuple>, id: nat, slots: seq<nat>, k: nat, gone: bool)
    requires k < |slots| && WrittenUpTo(s, t, id, slots, k, gone) && slots[k] in s.cells
    requires forall i :: 0 <= i < k ==> !Conflicts(CellAt(s.cells, slots[i]), id)
    ensures slots[k] in t.cells && (Conflicts(t.cells[slots[k]], id) <==> Conflicts(s.cells[slots[k]], id))
  {
  }

  /** The first k events of a list. */
  lemma FirstEvents(h: History, es: History, k: nat)
    requires k < |es|
    ensures h + es[..k + 1] == h + es[..k] + [es[k]]
    ensures After(h + es[..k + 1]) == Apply(After(h + es[..k]), es[k])
  {
    assert es[..k + 1] == es[..k] + [es[k]];
    AfterStep(h + es[..k], es[k]);
  }

  /** Deleting rows in order takes effect row by row: each is the transaction's own and gone, all others are as before. */
  lemma {:induction false} ErasesTakeEffect(h: History, id: nat, slots: seq<nat>, columns: seq<Tuple>, k: nat)
    requires k <= |slots| && IsActive(After(h), id) && forall i :: 0 <= i < |slots| ==> slots[i] in After(h).cells
    requires forall i :: 0 <= i < k ==> !Conflicts(After(h).cells[slots[i]], id)
    ensures WrittenUpTo(After(h), After(h + EraseEvents(After(h), id, slots, columns)[..k]), id, slots, k, true)
  {
    var es := EraseEvents(After(h), id, slots, columns);
    if k == 0 {
      assert h + es[..0] == h;
    } else {
      ErasesTakeEffect(h, id, slots, columns, k - 1);
      FirstEvents(h, es, k - 1);
      WrittenNext(After(h), After(h + es[..k - 1]), id, slots, k - 1, true, es[k - 1], DataOf(columns, slots[k - 1]));
    }
  }

  lemma {:induction false} TouchesTakeEffect(h: History, id: nat, slots: seq<nat>, columns: seq<Tuple>, k: nat)
    requires k <= |slots| && IsActive(After(h), id) && forall i :: 0 <= i < |slots| ==> slots[i] in After(h).cells
    requires forall i :: 0 <= i < k ==> !Conflicts(After(h).cells[slots[i]], id)
    ensures WrittenUpTo(After(h), After(h + TouchEvents(After(h), id, slots, columns)[..k]), id, slots, k, false)
  {
    var es := TouchEvents(After(h), id, slots, columns);
    if k == 0 {
      assert h + es[..0] == h;
    } else {
      TouchesTakeEffect(h, id, slots, columns, k - 1);
      FirstEvents(h, es, k - 1);
      WrittenNext(After(h), After(h + es[..k - 1]), id, slots, k - 1, false, es[k - 1], DataOf(columns, slots[k - 1]));
    }
  }

  lemma ErasesNext(s: State<nat, Tuple>, t: State<nat, Tuple>, id: nat, slots: seq<nat>, columns: seq<Tuple>, k: nat)
    requires k < |slots| && WrittenUpTo(s, t, id, slots, k, true) && slots[k] in s.cells && slots[k] in t.cells
    ensures EraseEvents(s, id, slots, columns)[k] == RowWrite(t.cells[slots[k]], id, slots[k], DataOf(columns, slots[k]), None)
  {
  }

  lemma TouchesNext(s: State<nat, Tuple>, t: State<nat, Tuple>, id: nat, slots: seq<nat>, columns: seq<Tuple>, k: nat)
    requires k < |slots| && WrittenUpTo(s, t, id, slots, k, false) && slots[k] in s.cells && slots[k] in t.cells
    ensures TouchEvents(s, id, slots, columns)[k]
         == RowWrite(t.cells[slots[k]], id, slots[k], DataOf(columns, slots[k]), t.cells[slots[k]].cur)
  {
  }

  /** The row is the same in both states, but for new values if it is live and its last place is among the first k. */
  ghost predicate RewrittenAt(t: State<nat, Tuple>, u: State<nat, Tuple>, slots: seq<nat>, columnIds: seq<nat>, updates: seq<seq<int>>, k: nat, slot: nat)
    requires slot in t.cells && slot in u.cells && |updates| == |columnIds| && forall j :: 0 <= j < |updates| ==> |updates[j]| == |slots|
  {
    var c, place := t.cells[slot], LastPlace(slots, slot);
    u.cells[slot] == if place.Some? && place.value < k && c.cur.Some?
                     then Cell(Some(Assigned(c.cur.value, columnIds, RowValues(updates, place.value))), c.undo) else c
  }

  /** The two states differ in the current contents of the updated rows only. */
  ghost predicate Rewrites(t: State<nat, Tuple>, u: State<nat, Tuple>, slots: seq<nat>, columnIds: seq<nat>, updates: seq<seq<int>>, k: nat)
    requires |updates| == |columnIds| && forall j :: 0 <= j < |updates| ==> |updates[j]| == |slots|
  {
    && u == t.(cells := u.cells) && u.cells.Keys == t.cells.Keys
    && forall slot :: slot in t.cells ==> RewrittenAt(t, u, slots, columnIds, updates, k, slot)
  }

  /** The row that is written next. */
  lemma RewrittenNext(c: Cell<Tuple>, d: Cell<Tuple>, id: nat, slots: seq<nat>, data: Tuple, columnIds: seq<nat>, updates: seq<seq<int>>, k: nat,
                      t: State<nat, Tuple>, u: State<nat, Tuple>)
    requires k < |slots| && |updates| == |columnIds| && forall j :: 0 <= j < |updates| ==> |updates[j]| == |slots|
    requires c.cur == d.cur && slots[k] in t.cells && slots[k] in u.cells
    requires t.cells[slots[k]] == if c.cur.Some? then Overwrite(d, id, c.cur) else Touched(d, data, id, c.cur)
    requires var v := StoredValue(c, slots, columnIds, updates, k);
      u.cells[slots[k]] == if c.cur.Some? then Overwrite(d, id, v) else Touched(d, data, id, v)
    ensures RewrittenAt(t, u, slots, columnIds, updates, k + 1, slots[k])
  {
    if IsLast(slots, k) { LastPlaceIs(slots, k); }
  }

  /** Writing a row, as the transition system sees it. */
  lemma RowWritten(t: State<nat, Tuple>, id: nat, slot: nat, data: Tuple, v: Option<Tuple>)
    requires Writable(t, id, slot)
    ensures var d := t.cells[slot];
      Apply(t, RowWrite(d, id, slot, data, v))
        == t.(cells := t.cells[slot := if d.cur.Some? then Overwrite(d, id, v) else Touched(d, data, id, v)])
  {
  }

  lemma RewritesNext(s: State<nat, Tuple>, t: State<nat, Tuple>, u: State<nat, Tuple>, id: nat, slots: seq<nat>, columns: seq<Tuple>,
                     columnIds: seq<nat>, updates: seq<seq<int>>, k: nat)
    requires k < |slots| && WrittenUpTo(s, t, id, slots, k, false) && IsActive(s, id)
    requires slots[k] in s.cells && !Conflicts(s.cells[slots[k]], id)
    requires |updates| == |columnIds| && forall j :: 0 <= j < |updates| ==> |updates[j]| == |slots|
    requires Rewrites(t, u, slots, columnIds, updates, k)
    ensures Rewrites(Apply(t, TouchEvents(s, id, slots, columns)[k]), Apply(u, StoreEvents(s, id, slots, columns, columnIds, updates)[k]),
                     slots, columnIds, updates, k + 1)
  {
    var slot, data := slots[k], DataOf(columns, slots[k]);
    var c, d := s.cells[slot], t.cells[slot];
    assert RewrittenAt(t, u, slots, columnIds, updates, k, slot) && LastPlace(slots, slot).Some?;
    assert u.cells[slot] == d && c.cur == d.cur && Writable(t, id, slot);
    RowWritten(t, id, slot, data, c.cur);
    RowWritten(u, id, slot, data, StoredValue(c, slots, columnIds, updates, k));
    var t', u' := Apply(t, TouchEvents(s, id, slots, columns)[k]), Apply(u, StoreEvents(s, id, slots, columns, columnIds, updates)[k]);
    RewrittenNext(c, d, id, slots, data, columnIds, updates, k, t', u');
    RewritesOthers(t, u, t', u', slots, columnIds, updates, k, t'.cells[slot], u'.cells[slot]);
  }

  lemma RewritesOthers(t: State<nat, Tuple>, u: State<nat, Tuple>, t': State<nat, Tuple>, u': State<nat, Tuple>,
                       slots: seq<nat>, columnIds: seq<nat>, updates: seq<seq<int>>, k: nat, c: Cell<Tuple>, d: Cell<Tuple>)
    requires k < |slots| && |updates| == |columnIds| && forall j :: 0 <= j < |updates| ==> |updates[j]| == |slots|
    requires Rewrites(t, u, slots, columnIds, updates, k) && slots[k] in t.cells
    requires t' == t.(cells := t.cells[slots[k] := c]) && u' == u.(cells := u.cells[slots[k] := d])
    requires RewrittenAt(t', u', slots, columnIds, updates, k + 1, slots[k])
    ensures Rewrites(t', u', slots, columnIds, updates, k + 1)
  {
    forall r | r in t'.cells && r != slots[k] ensures RewrittenAt(t', u', slots, columnIds, updates, k + 1, r) {
      assert RewrittenAt(t, u, slots, columnIds, updates, k, r);
    }
  }

  lemma RewritesStep(h: History, es: History, fs: History, slots: seq<nat>, columnIds: seq<nat>, updates: seq<seq<int>>, k: nat)
    requires k < |es| && k < |fs| && |updates| == |columnIds| && forall j :: 0 <= j < |updates| ==> |updates[j]| == |slots|
    requires Rewrites(Apply(After(h + es[..k]), es[k]), Apply(After(h + fs[..k]), fs[k]), slots, columnIds, updates, k + 1)
    ensures Rewrites(After(h + es[..k + 1]), After(h + fs[..k + 1]), slots, columnIds, updates, k + 1)
  {
    FirstEvents(h, es, k);
    FirstEvents(h, fs, k);
  }

  lemma {:induction false} RewritesSoFar(h: History, id: nat, slots: seq<nat>, columns: seq<Tuple>,
                                         columnIds: seq<nat>, updates: seq<seq<int>>, k: nat)
    requires k <= |slots| && IsActive(After(h), id) && forall i :: 0 <= i < |slots| ==> slots[i] in After(h).cells
    requires forall i :: 0 <= i < k ==> !Conflicts(After(h).cells[slots[i]], id)
    requires |updates| == |columnIds| && forall j :: 0 <= j < |updates| ==> |updates[j]| == |slots|
    ensures Rewrites(After(h + TouchEvents(After(h), id, slots, columns)[..k]),
                     After(h + StoreEvents(After(h), id, slots, columns, columnIds, updates)[..k]), slots, columnIds, updates, k)
  {
    var s := After(h);
    var es, fs := TouchEvents(s, id, slots, columns), StoreEvents(s, id, slots, columns, columnIds, updates);
    if k == 0 {
      assert h + es[..0] == h && h + fs[..0] == h;
    } else {
      var m := k - 1;
      RewritesSoFar(h, id, slots, columns, columnIds, updates, m);
      TouchesTakeEffect(h, id, slots, columns, m);
      RewritesNext(s, After(h + es[..m]), After(h + fs[..m]), id, slots, columns, columnIds, updates, m);
      RewritesStep(h, es, fs, slots, columnIds, updates, m);
    }
  }

  /** Moving the old rows to the undo buffer first and storing the new columns later amounts to writing the new rows. */
  lemma UpdateRewrites(h: History, id: nat, slots: seq<nat>, columns: seq<Tuple>, columnIds: seq<nat>, updates: seq<seq<int>>)
    requires IsActive(After(h), id) && forall i :: 0 <= i < |slots| ==> slots[i] in After(h).cells
    requires forall i :: 0 <= i < |slots| ==> !Conflicts(After(h).cells[slots[i]], id)
    requires |updates| == |columnIds| && forall j :: 0 <= j < |updates| ==> |updates[j]| == |slots|
    ensures var t := After(h + TouchEvents(After(h), id, slots, columns));
            var u := After(h + StoreEvents(After(h), id, slots, columns, columnIds, updates));
            WrittenUpTo(After(h), t, id, slots, |slots|, false) && Rewrites(t, u, slots, columnIds, updates, |slots|)
  {
    var s, n := After(h), |slots|;
    TouchesTakeEffect(h, id, slots, columns, n);
    RewritesSoFar(h, id, slots, columns, columnIds, updates, n);
    assert TouchEvents(s, id, slots, columns)[..n] == TouchEvents(s, id, slots, columns);
    assert StoreEvents(s, id, slots, columns, columnIds, updates)[..n] == StoreEvents(s, id, slots, columns, columnIds, updates);
  }

  /** The slots that an append of n rows fills. */
  function NewSlots(first: nat, n: nat): (slots: seq<nat>)
    ensures |slots| == n && forall i :: 0 <= i < n ==> slots[i] == first + i
  {
    seq(n, i requires 0 <= i < n => first + i)
  }

  function Somes(rows: seq<Tuple>): (vs: seq<Option<Tuple>>)
    ensures |vs| == |rows| && forall i :: 0 <= i < |rows| ==> vs[i] == Some(rows[i])
  {
    seq(|rows|, i requires 0 <= i < |rows| => Some(rows[i]))
  }

  function Copies(table: nat, n: nat): (ts: seq<nat>)
    ensures |ts| == n && forall i :: 0 <= i < n ==> ts[i] == table
  {
    seq(n, i => table)
  }

  function Insertions(table: nat, rows: seq<Tuple>): (ds: seq<UB.Deed>)
    ensures |ds| == |rows| && forall i :: 0 <= i < |rows| ==> ds[i] == UB.Inserted(table, rows[i])
  {
    seq(|rows|, i requires 0 <= i < |rows| => UB.Inserted(table, rows[i]))
  }

  function Nones(n: nat): (vs: seq<Option<Tuple>>)
    ensures |vs| == n && forall i :: 0 <= i < n ==> vs[i] == None
  {
    seq(n, i => None)
  }

  /** A new record belongs to its transaction and to nobody else. */
  lemma OwnsPush(records: seq<VersionInformation>, records': seq<VersionInformation>, origins: seq<Origin>, origin: Origin,
                 chains: seq<seq<nat>>, chains': seq<seq<nat>>, own: seq<nat>, stamp: nat, id: nat)
    requires UB.SlotsOk(records, origins, chains) && UB.OwnsAll(records, origins, chains, own, stamp)
    requires |origins| == |records| && |records'| == |records| + 1 && records'[|records|].versionNumber == id
    requires forall r :: 0 <= r < |records| ==> records'[r].versionNumber == records[r].versionNumber
    requires origin.slot < |chains'| && |chains| <= |chains'|
    requires forall s :: 0 <= s < |chains'| ==>
      chains'[s] == (if s == origin.slot then [|records|] else []) + (if s < |chains| then chains[s] else [])
    ensures UB.OwnsAll(records', origins + [origin], chains', own + (if stamp == id then [|records|] else []), stamp)
  {
    var own' := own + (if stamp == id then [|records|] else []);
    var rec := |records|;
    forall r | r in own ensures r < rec { assert LinkedIn(origins, chains, r); }
    AscendingPush(own, rec, stamp == id);
    assert chains'[origin.slot][0] == rec && (origins + [origin])[rec] == origin;
    forall r | r in own'
      ensures LinkedIn(origins + [origin], chains', r) && r < |records'| && records'[r].versionNumber == stamp
    {
      if r != rec {
        assert r in own && LinkedIn(origins, chains, r);
        PushKeepsLinked(origins, origin, chains, chains', r);
      }
    }
    forall s, p | 0 <= s < |chains'| && 0 <= p < |chains'[s]|
      ensures chains'[s][p] < |records'| && records'[chains'[s][p]].versionNumber == stamp ==> chains'[s][p] in own'
    {
      PushedAt(chains, chains', origin.slot, rec, s, p);
    }
  }

  /** A new record has come on top of the chain of its slot. */
  ghost predicate Pushed(records: seq<VersionInformation>, records': seq<VersionInformation>, origins: seq<Origin>, origins': seq<Origin>,
                         origin: Origin, chains: seq<seq<nat>>, chains': seq<seq<nat>>, id: nat) {
    && origins' == origins + [origin] && |records'| == |records| + 1 && records'[|records|].versionNumber == id
    && (forall r :: 0 <= r < |records| ==> records'[r].versionNumber == records[r].versionNumber)
    && origin.slot < |chains'| && |chains| <= |chains'|
    && (forall s :: 0 <= s < |chains'| ==>
          chains'[s] == (if s == origin.slot then [|records|] else []) + (if s < |chains| then chains[s] else []))
  }

  /** Every undo buffer names exactly the linked records with its transaction's stamp. */
  ghost predicate OwnersIn(records: seq<VersionInformation>, origins: seq<Origin>, chains: seq<seq<nat>>,
                           ts: seq<Transaction>, rs: seq<Transaction>) {
    && (forall i :: 0 <= i < |ts| ==> ts[i].commitId == 0 && UB.OwnsAll(records, origins, chains, UB.Tuples(ts[i].entries), ts[i].id))
    && (forall i :: 0 <= i < |rs| ==> UB.OwnsAll(records, origins, chains, UB.Tuples(rs[i].entries), rs[i].commitId))
  }

  lemma OwnersPush(records: seq<VersionInformation>, records': seq<VersionInformation>, origins: seq<Origin>, origins': seq<Origin>,
                   origin: Origin, chains: seq<seq<nat>>, chains': seq<seq<nat>>, ts: seq<Transaction>, rs: seq<Transaction>, i: nat)
    requires UB.SlotsOk(records, origins, chains) && |origins| == |records| && i < |ts|
    requires Pushed(records, records', origins, origins', origin, chains, chains', ts[i].id) && OwnersIn(records, origins, chains, ts, rs)
    requires forall j :: 0 <= j < |ts| && j != i ==> ts[j].id != ts[i].id
    requires forall j :: 0 <= j < |rs| ==> rs[j].commitId != ts[i].id
    ensures OwnersIn(records', origins', chains', ts[i := ts[i].(entries := ts[i].entries + [UB.TupleEntry(|records|)])], rs)
  {
    var ts' := ts[i := ts[i].(entries := ts[i].entries + [UB.TupleEntry(|records|)])];
    UB.TuplesPush(ts[i].entries, UB.TupleEntry(|records|));
    forall j | 0 <= j < |ts'| ensures ts'[j].commitId == 0 && UB.OwnsAll(records', origins', chains', UB.Tuples(ts'[j].entries), ts'[j].id) {
      OwnsPush(records, records', origins, origin, chains, chains', UB.Tuples(ts[j].entries), ts[j].id, ts[i].id);
      assert UB.Tuples(ts[j].entries) + [] == UB.Tuples(ts[j].entries);
    }
    forall j | 0 <= j < |rs| ensures UB.OwnsAll(records', origins', chains', UB.Tuples(rs[j].entries), rs[j].commitId) {
      OwnsPush(records, records', origins, origin, chains, chains', UB.Tuples(rs[j].entries), rs[j].commitId, ts[i].id);
      assert UB.Tuples(rs[j].entries) + [] == UB.Tuples(rs[j].entries);
    }
  }

  lemma AscendingPush(own: seq<nat>, rec: nat, push: bool)
    requires UB.Ascending(own) && forall r :: r in own ==> r < rec
    ensures UB.Ascending(own + if push then [rec] else [])
  {
    var own' := own + if push then [rec] else [];
    forall i, j | 0 <= i < j < |own'| ensures own'[i] < own'[j] {
      assert own'[i] == own[i] && own[i] in own;
    }
  }

  lemma PushKeepsLinked(origins: seq<Origin>, origin: Origin, chains: seq<seq<nat>>, chains': seq<seq<nat>>, r: nat)
    requires LinkedIn(origins, chains, r) && |chains| <= |chains'|
    requires forall s :: 0 <= s < |chains'| ==>
      chains'[s] == (if s == origin.slot then [|origins|] else []) + (if s < |chains| then chains[s] else [])
    ensures LinkedIn(origins + [origin], chains', r)
  {
    var s := origins[r].slot;
    assert (origins + [origin])[r] == origins[r] && r in chains[s];
    assert chains'[s] == (if s == origin.slot then [|origins|] else []) + chains[s];
  }

  lemma PushedAt(chains: seq<seq<nat>>, chains': seq<seq<nat>>, slot: nat, rec: nat, s: nat, p: nat)
    requires s < |chains'| && p < |chains'[s]|
    requires chains'[s] == (if s == slot then [rec] else []) + (if s < |chains| then chains[s] else [])
    ensures chains'[s][p] == rec || (s < |chains| && chains'[s][p] in chains[s])
    ensures chains'[s][p] != rec ==> s < |chains| && exists q :: 0 <= q < |chains[s]| && chains[s][q] == chains'[s][p]
  {
    if !(s == slot && p == 0) {
      assert chains'[s][p] == chains[s][if s == slot then p - 1 else p];
    }
  }

  // ----- what the log will have to tell -----

  ghost predicate TellsOne(records: seq<VersionInformation>, origins: seq<Origin>, tableOf: seq<nat>,
                           entries: seq<UB.UndoEntry>, deeds: seq<UB.Deed>) {
    && UB.Known(records, origins, tableOf, UB.Tuples(entries))
    && forall t :: UB.EntryItems(records, origins, tableOf, entries, t) == UB.Story(deeds, t)
  }

  /** The undo buffer of every running transaction tells the transaction's story. */
  ghost predicate Tells(records: seq<VersionInformation>, origins: seq<Origin>, tableOf: seq<nat>,
                        ts: seq<Transaction>, stories: map<nat, seq<UB.Deed>>) {
    forall i :: 0 <= i < |ts| ==>
      ts[i].id in stories && TellsOne(records, origins, tableOf, ts[i].entries, stories[ts[i].id])
  }

  lemma TellsFrame(records: seq<VersionInformation>, records': seq<VersionInformation>, origins: seq<Origin>, origins': seq<Origin>,
                   tableOf: seq<nat>, tableOf': seq<nat>, ts: seq<Transaction>, stories: map<nat, seq<UB.Deed>>)
    requires UB.Grown(records, records', origins, origins', tableOf, tableOf')
    requires Tells(records, origins, tableOf, ts, stories)
    ensures Tells(records', origins', tableOf', ts, stories)
  {
    forall i | 0 <= i < |ts| ensures TellsOne(records', origins', tableOf', ts[i].entries, stories[ts[i].id]) {
      assert TellsOne(records, origins, tableOf, ts[i].entries, stories[ts[i].id]);
      forall t { UB.ItemsFrame(records, records', origins, origins', tableOf, tableOf', ts[i].entries, t); }
    }
  }

  lemma TellsMoreAbout(records: seq<VersionInformation>, origins: seq<Origin>, tableOf: seq<nat>,
                       entries: seq<UB.UndoEntry>, story: seq<UB.Deed>, e: UB.UndoEntry, deeds: seq<UB.Deed>, t: nat)
    requires UB.EntryItems(records, origins, tableOf, entries, t) == UB.Story(story, t) && |deeds| <= 1
    requires UB.EntryItem(records, origins, tableOf, e, t) == UB.Story(deeds, t)
    ensures UB.EntryItems(records, origins, tableOf, entries + [e], t) == UB.Story(story + deeds, t)
  {
    UB.EntriesPush(records, origins, tableOf, entries, e, t);
    UB.StoryJoin(story, deeds, t);
  }

  lemma KnownMore(records: seq<VersionInformation>, origins: seq<Origin>, tableOf: seq<nat>, entries: seq<UB.UndoEntry>, e: UB.UndoEntry)
    requires UB.Known(records, origins, tableOf, UB.Tuples(entries))
    requires e.TupleEntry? ==> e.rec < |records| && e.rec < |origins| && origins[e.rec].slot < |tableOf|
    ensures UB.Known(records, origins, tableOf, UB.Tuples(entries + [e]))
  {
    UB.EntriesPush(records, origins, tableOf, entries, e, 0);
  }

  /** A new entry tells a new deed, or nothing when it is about an overwritten row. */
  lemma TellsMore(records: seq<VersionInformation>, origins: seq<Origin>, tableOf: seq<nat>,
                  entries: seq<UB.UndoEntry>, story: seq<UB.Deed>, e: UB.UndoEntry, deeds: seq<UB.Deed>)
    requires TellsOne(records, origins, tableOf, entries, story) && |deeds| <= 1
    requires e.TupleEntry? ==> e.rec < |records| && e.rec < |origins| && origins[e.rec].slot < |tableOf|
    requires forall t :: UB.EntryItem(records, origins, tableOf, e, t) == UB.Story(deeds, t)
    ensures TellsOne(records, origins, tableOf, entries + [e], story + deeds)
  {
    forall t ensures UB.EntryItems(records, origins, tableOf, entries + [e], t) == UB.Story(story + deeds, t) {
      TellsMoreAbout(records, origins, tableOf, entries, story, e, deeds, t);
    }
    KnownMore(records, origins, tableOf, entries, e);
  }

  lemma TellsPush(records: seq<VersionInformation>, origins: seq<Origin>, tableOf: seq<nat>,
                  ts: seq<Transaction>, stories: map<nat, seq<UB.Deed>>, i: nat, e: UB.UndoEntry, deeds: seq<UB.Deed>)
    requires Tells(records, origins, tableOf, ts, stories) && i < |ts| && |deeds| <= 1
    requires forall j :: 0 <= j < |ts| && j != i ==> ts[j].id != ts[i].id
    requires e.TupleEntry? ==> e.rec < |records| && e.rec < |origins| && origins[e.rec].slot < |tableOf|
    requires forall t :: UB.EntryItem(records, origins, tableOf, e, t) == UB.Story(deeds, t)
    ensures Tells(records, origins, tableOf, ts[i := ts[i].(entries := ts[i].entries + [e])],
                  stories[ts[i].id := stories[ts[i].id] + deeds])
  {
    TellsMore(records, origins, tableOf, ts[i].entries, stories[ts[i].id], e, deeds);
    var ts', stories' := ts[i := ts[i].(entries := ts[i].entries + [e])], stories[ts[i].id := stories[ts[i].id] + deeds];
    forall j | 0 <= j < |ts'| ensures ts'[j].id in stories' && TellsOne(records, origins, tableOf, ts'[j].entries, stories'[ts'[j].id]) {
      assert j != i ==> TellsOne(records, origins, tableOf, ts[j].entries, stories[ts[j].id]);
    }
  }

  // ----- commit -----

  lemma StampedKeepsOwner(records: seq<VersionInformation>, records': seq<VersionInformation>, origins: seq<Origin>, chains: seq<seq<nat>>,
                          own: seq<nat>, id: nat, commitId: nat, other: seq<nat>, stamp: nat)
    requires UB.Stamped(records, records', own, commitId) && UB.OwnsAll(records, origins, chains, own, id)
    requires UB.OwnsAll(records, origins, chains, other, stamp) && stamp != id && stamp != commitId
    ensures UB.OwnsAll(records', origins, chains, other, stamp)
  {
    forall r | r in other ensures r < |records'| && records'[r].versionNumber == stamp {
      assert r !in own;
    }
  }

  lemma StampedOwner(records: seq<VersionInformation>, records': seq<VersionInformation>, origins: seq<Origin>, chains: seq<seq<nat>>,
                     own: seq<nat>, id: nat, commitId: nat)
    requires UB.Stamped(records, records', own, commitId) && UB.OwnsAll(records, origins, chains, own, id)
    requires forall s, p :: 0 <= s < |chains| && 0 <= p < |chains[s]| ==>
      chains[s][p] < |records| && records[chains[s][p]].versionNumber != commitId
    ensures UB.OwnsAll(records', origins, chains, own, commitId)
  {
  }

  lemma StampedCell(records: seq<VersionInformation>, records': seq<VersionInformation>, origins: seq<Origin>, chains: seq<seq<nat>>,
                    own: seq<nat>, id: nat, commitId: nat, s: nat, cur: Option<Tuple>)
    requires UB.Stamped(records, records', own, commitId) && UB.OwnsAll(records, origins, chains, own, id)
    requires s < |chains| && forall p :: 0 <= p < |chains[s]| ==> chains[s][p] < |records|
    ensures Cell(cur, Undos(records', chains[s])) == Restamp(Cell(cur, Undos(records, chains[s])), id, commitId)
  {
    var d := Restamp(Cell(cur, Undos(records, chains[s])), id, commitId);
    forall p | 0 <= p < |chains[s]| ensures Undos(records', chains[s])[p] == d.undo[p] {
      assert records[chains[s][p]].versionNumber == id <==> chains[s][p] in own;
    }
  }

  lemma CommitIds(s: State<nat, Tuple>, id: nat)
    requires Inv(s) && IsActive(s, id)
    ensures 0 < s.clock && s.active[IndexOf(s.active, id)].id == id
  {
    assert s.active[IndexOf(s.active, id)].start < s.clock;
  }

  // ----- removal -----

  lemma {:induction false} LowestSnoc(a: seq<Active>, t: Active)
    ensures LowestStart(a + [t]) == Min(LowestStart(a), if t.start < TRANSACTION_ID_START then t.start else TRANSACTION_ID_START)
    ensures LowestQuery(a + [t]) == Min(LowestQuery(a), if t.query < MAXIMUM_QUERY_ID then t.query else MAXIMUM_QUERY_ID)
  {
    if a != [] {
      LowestSnoc(a[1..], t);
      assert (a + [t])[1..] == a[1..] + [t];
    } else {
      assert (a + [t])[1..] == [];
    }
  }

  lemma RetireOneMore(recent: seq<Committed>, i: nat, highest: nat)
    requires i < |recent|
    ensures RetireAll(recent[..i + 1], highest) == RetireAll(recent[..i], highest) + [Retired(recent[i].id, highest)]
  {
  }

  lemma LowestBounds(a: seq<Active>)
    ensures LowestStart(a) <= TRANSACTION_ID_START && LowestQuery(a) <= MAXIMUM_QUERY_ID
  {
    LowestStartIsMin(a);
    LowestQueryIsMin(a);
  }

  lemma {:induction false} FreeableAt(waiting: seq<Retired>, lowest: nat, n: nat)
    requires n <= |waiting| && forall i :: 0 <= i < n ==> waiting[i].highest < lowest
    requires n == |waiting| || lowest <= waiting[n].highest
    ensures Freeable(waiting, lowest) == n
  {
    if n > 0 { FreeableAt(waiting[1..], lowest, n - 1); }
  }

  lemma InsertionsPush(story: seq<UB.Deed>, table: nat, rows: seq<Tuple>, k: nat)
    requires k < |rows|
    ensures story + Insertions(table, rows[..k + 1]) == story + Insertions(table, rows[..k]) + [UB.Inserted(table, rows[k])]
  {
    assert Insertions(table, rows[..k + 1]) == Insertions(table, rows[..k]) + [UB.Inserted(table, rows[k])];
  }

  class Engine {
    const storage: Storage
    var currentQueryNumber: nat
    var currentStartTimestamp: nat
    var currentTransactionId: nat
    var activeTransactions: seq<Transaction>
    var recentlyCommitted: seq<Transaction>
    var oldTransactions: seq<Transaction>

    /** Everything that has happened so far. */
    ghost var history: History
    /** What each transaction has inserted and asked for. */
    ghost var stories: map<nat, seq<UB.Deed>>

    /** The slots, as the transition system sees them. */
    ghost predicate ShowsCells(cells: map<nat, Cell<Tuple>>)
      requires storage.Valid()
      reads storage
    {
      && (forall k: nat :: k in cells <==> k < |storage.chains|)
      && (forall k: nat :: k in cells ==> cells[k] == storage.CellOf(k))
    }

    ghost predicate ShowsTransactions(s: State<nat, Tuple>)
      reads `currentStartTimestamp, `currentTransactionId, `currentQueryNumber
      reads `activeTransactions, `recentlyCommitted, `oldTransactions
    {
      && s.clock == currentStartTimestamp && s.nextId == currentTransactionId && s.nextQuery == currentQueryNumber
      && s.active == Actives(activeTransactions)
      && s.recent == Committeds(recentlyCommitted)
      && s.retired == Retireds(oldTransactions)
    }

    /** The engine is in the given state of the transition system. */
    ghost predicate Shows(s: State<nat, Tuple>)
      requires storage.Valid()
      reads `currentStartTimestamp, `currentTransactionId, `currentQueryNumber
      reads `activeTransactions, `recentlyCommitted, `oldTransactions, storage
    {
      ShowsTransactions(s) && ShowsCells(s.cells)
    }

    ghost predicate Told()
      reads `activeTransactions, `stories, storage`records, storage`origins, storage`tableOf
    {
      Tells(storage.records, storage.origins, storage.tableOf, activeTransactions, stories)
    }

    /** What a running transaction has inserted and asked for. */
    ghost function StoryOf(id: nat): seq<UB.Deed>
      reads `stories
    {
      if id in stories then stories[id] else []
    }

    ghost predicate Buffers()
      reads `activeTransactions, `recentlyCommitted, storage`records, storage`origins, storage`chains
    {
      OwnersIn(storage.records, storage.origins, storage.chains, activeTransactions, recentlyCommitted)
    }

    ghost predicate Consistent()
      reads this, storage
    {
      storage.Valid() && Buffers() && Told() && Shows(After(history))
    }

    /** Consistent().  As with Folded, the counter keeps it closed where only its preservation matters. */
    ghost predicate Sealed(n: nat := CLOSED)
      reads this, storage
      decreases |history|, n
    {
      if n == 0 then Consistent() else Sealed(n - 1)
    }

    ghost predicate Valid()
      reads this, storage
    {
      Sealed()
    }

    lemma {:induction false} Open(n: nat := CLOSED)
      ensures Sealed(n) == Consistent()
      decreases n
    {
      if n > 0 { Open(n - 1); }
    }

    constructor ()
      ensures Valid() && history == [] && fresh(storage) && storage.chains == [] && storage.tableOf == []
    {
      storage := new Storage();
      currentQueryNumber, currentStartTimestamp, currentTransactionId := 1, 0, TRANSACTION_ID_START;
      activeTransactions, recentlyCommitted, oldTransactions := [], [], [];
      history, stories := [], map[];
      new;
      AfterIsRun([]);
      assert After([]) == Init();
      assert Init<nat, Tuple>().cells == map[];
      assert ShowsCells(map[]);
      Open();
    }

    lemma NextIdUnused()
      requires storage.Valid() && Shows(After(history))
      ensures UB.OwnsAll(storage.records, storage.origins, storage.chains, [], currentTransactionId)
    {
      var s := After(history);
      AfterInv(history);
      forall k, p | 0 <= k < |storage.chains| && 0 <= p < |storage.chains[k]|
        ensures storage.chains[k][p] < |storage.records| && storage.records[storage.chains[k][p]].versionNumber != currentTransactionId
      {
        assert s.cells[k].undo[p].stamp == storage.records[storage.chains[k][p]].versionNumber;
        assert Listed(s.active, s.recent, s.cells[k].undo[p].stamp);
      }
    }

    lemma IdsBelowNext()
      requires storage.Valid() && Shows(After(history))
      ensures forall i :: 0 <= i < |activeTransactions| ==> activeTransactions[i].id < currentTransactionId
    {
      AfterInv(history);
      forall i | 0 <= i < |activeTransactions| ensures activeTransactions[i].id < currentTransactionId {
        assert Actives(activeTransactions)[i].id == activeTransactions[i].id;
      }
    }

    /** Refused once the start times have run out. */
    method StartTransaction() returns (started: bool, id: nat)
      requires Valid()
      modifies this
      ensures Valid() && history == old(history) + [Begin]
      ensures started == Enabled(After(old(history)), Begin) && id == After(old(history)).nextId
      ensures started ==> IsActive(After(history), id)
      ensures stories == if started then old(stories)[id := []] else old(stories)
    {
      Open();
      NextIdUnused();
      IdsBelowNext();
      ghost var before := After(history);
      AfterBegin(history);
      history := history + [Begin];
      id := currentTransactionId;
      if currentStartTimestamp >= TRANSACTION_ID_START {
        Open();
        return false, id;
      }
      var transaction := Transaction(currentStartTimestamp, id, 0, 0, MAXIMUM_QUERY_ID, []);
      currentStartTimestamp := currentStartTimestamp + 1;
      currentTransactionId := currentTransactionId + 1;
      activeTransactions := activeTransactions + [transaction];
      stories := stories[id := []];
      started := true;
      assert Actives(activeTransactions)[|before.active|].id == id;
      Open();
    }

    /** The position of a running transaction. */
    function Position(id: nat): (i: nat)
      reads this
      ensures i == IndexOf(Actives(activeTransactions), id)
    {
      IndexOf(Actives(activeTransactions), id)
    }

    method BeginQuery(id: nat)
      requires Valid() && Enabled(After(history), Event.BeginQuery(id))
      modifies this
      ensures Valid() && history == old(history) + [Event.BeginQuery(id)]
      ensures stories == old(stories)
    {
      Open();
      AfterQuery(history, id);
      history := history + [Event.BeginQuery(id)];
      var i := Position(id);
      activeTransactions := activeTransactions[i := activeTransactions[i].(activeQuery := currentQueryNumber)];
      currentQueryNumber := currentQueryNumber + 1;
      assert Actives(activeTransactions) == After(history).active;
      Open();
    }

    method EndQuery(id: nat)
      requires Valid() && IsActive(After(history), id)
      modifies this
      ensures Valid() && history == old(history) + [Event.EndQuery(id)]
      ensures stories == old(stories)
    {
      Open();
      AfterEndQuery(history, id);
      history := history + [Event.EndQuery(id)];
      var i := Position(id);
      activeTransactions := activeTransactions[i := activeTransactions[i].(activeQuery := MAXIMUM_QUERY_ID)];
      assert Actives(activeTransactions) == After(history).active;
      Open();
    }

    /** The other transactions' buffers after one of them got a new record. */
    method PushEntry(i: nat, ghost origin: Origin, ghost deeds: seq<UB.Deed>, ghost records: seq<VersionInformation>,
                     ghost origins: seq<Origin>, ghost tableOf: seq<nat>, ghost chains: seq<seq<nat>>)
      requires storage.Valid() && i < |activeTransactions| && StampsDistinct(i)
      requires UB.SlotsOk(records, origins, chains) && |origins| == |records|
      requires Pushed(records, storage.records, origins, storage.origins, origin, chains, storage.chains, activeTransactions[i].id)
      requires OwnersIn(records, origins, chains, activeTransactions, recentlyCommitted)
      requires Tells(records, origins, tableOf, activeTransactions, stories) && |deeds| <= 1
      requires UB.Grown(records, storage.records, origins, storage.origins, tableOf, storage.tableOf) && origin.slot < |storage.tableOf|
      requires forall t :: UB.EntryItem(storage.records, storage.origins, storage.tableOf, UB.TupleEntry(|records|), t) == UB.Story(deeds, t)
      modifies this`activeTransactions, this`stories
      ensures Buffers() && Told()
      ensures |activeTransactions| == |old(activeTransactions)| && activeTransactions[i].id == old(activeTransactions[i].id)
      ensures stories == old(stories)[activeTransactions[i].id := old(StoryOf(activeTransactions[i].id)) + deeds]
      ensures Actives(activeTransactions) == old(Actives(activeTransactions))
    {
      var rec := |storage.records| - 1;
      var entries := activeTransactions[i].entries + [UB.TupleEntry(rec)];
      OwnersPush(records, storage.records, origins, storage.origins, origin, chains, storage.chains, activeTransactions, recentlyCommitted, i);
      TellsFrame(records, storage.records, origins, storage.origins, tableOf, storage.tableOf, activeTransactions, stories);
      TellsPush(storage.records, storage.origins, storage.tableOf, activeTransactions, stories, i, UB.TupleEntry(rec), deeds);
      stories := stories[activeTransactions[i].id := stories[activeTransactions[i].id] + deeds];
      activeTransactions := activeTransactions[i := activeTransactions[i].(entries := entries)];
    }

    ghost predicate StampsDistinct(i: nat)
      requires i < |activeTransactions|
      reads this
    {
      && (forall j :: 0 <= j < |activeTransactions| && j != i ==> activeTransactions[j].id != activeTransactions[i].id)
      && (forall j :: 0 <= j < |recentlyCommitted| ==> recentlyCommitted[j].commitId != activeTransactions[i].id)
    }

    lemma StampsDiffer(i: nat)
      requires Consistent() && i < |activeTransactions|
      ensures StampsDistinct(i)
    {
      AfterInv(history);
      assert Actives(activeTransactions)[i].id == activeTransactions[i].id;
      forall j | 0 <= j < |activeTransactions| && j != i ensures activeTransactions[j].id != activeTransactions[i].id {
        assert Actives(activeTransactions)[j].id == activeTransactions[j].id;
      }
      forall j | 0 <= j < |recentlyCommitted| ensures recentlyCommitted[j].commitId != activeTransactions[i].id {
        assert Committeds(recentlyCommitted)[j].commitId == recentlyCommitted[j].commitId;
      }
    }

    method RecordTuple(i: nat, slot: nat)
      requires storage.Valid() && Buffers() && Told() && i < |activeTransactions| && StampsDistinct(i)
      requires slot < |storage.chains|
      modifies this`activeTransactions, this`stories, storage
      ensures storage.Valid() && Buffers() && Told()
      ensures stories == old(stories)
      ensures Actives(activeTransactions) == old(Actives(activeTransactions))
      ensures storage.tableOf == old(storage.tableOf) && |storage.chains| == |old(storage.chains)|
      ensures storage.deleted == old(storage.deleted) && storage.columns == old(storage.columns)
      ensures storage.chains[slot] != [] && storage.chains[slot][0] < |storage.records|
      ensures storage.records[storage.chains[slot][0]].tupleData.Some?
      ensures forall s :: 0 <= s < |storage.chains| && s != slot ==> storage.CellOf(s) == old(storage.CellOf(s))
      ensures storage.CellOf(slot)
           == Touched(old(storage.CellOf(slot)), storage.columns[slot], activeTransactions[i].id, old(storage.Base(slot)))
    {
      UB.ValidSlots(storage);
      ghost var records, origins, tableOf, chains := storage.records, storage.origins, storage.tableOf, storage.chains;
      var rec := storage.PushTuple(slot, activeTransactions[i].id);
      assert activeTransactions[i].id in stories;
      assert stories[activeTransactions[i].id] + [] == stories[activeTransactions[i].id];
      PushEntry(i, Origin(slot, []), [], records, origins, tableOf, chains);
    }

    method RecordErasure(i: nat, slot: nat)
      requires storage.Valid() && Buffers() && Told() && i < |activeTransactions| && StampsDistinct(i)
      requires slot < |storage.chains|
      modifies this`activeTransactions, this`stories, storage
      ensures storage.Valid() && Buffers() && Told()
      ensures stories == old(stories)
      ensures Actives(activeTransactions) == old(Actives(activeTransactions))
      ensures storage.tableOf == old(storage.tableOf) && |storage.chains| == |old(storage.chains)|
      ensures storage.columns == old(storage.columns)
      ensures forall s :: 0 <= s < |storage.chains| && s != slot ==> storage.CellOf(s) == old(storage.CellOf(s))
      ensures storage.CellOf(slot) == Touched(old(storage.CellOf(slot)), storage.columns[slot], activeTransactions[i].id, None)
    {
      RecordTuple(i, slot);
      storage.SetBase(slot, storage.columns[slot], true);
    }

    method RecordInsertion(i: nat, table: nat, row: Tuple)
      requires storage.Valid() && Buffers() && Told() && i < |activeTransactions| && StampsDistinct(i)
      modifies this`activeTransactions, this`stories, storage
      ensures storage.Valid() && Buffers() && Told()
      ensures |activeTransactions| == |old(activeTransactions)| && activeTransactions[i].id == old(activeTransactions[i].id)
      ensures stories == old(stories)[activeTransactions[i].id := old(StoryOf(activeTransactions[i].id)) + [UB.Inserted(table, row)]]
      ensures Actives(activeTransactions) == old(Actives(activeTransactions))
      ensures storage.tableOf == old(storage.tableOf) + [table] && |storage.chains| == |old(storage.chains)| + 1
      ensures forall s :: 0 <= s < |old(storage.chains)| ==> storage.CellOf(s) == old(storage.CellOf(s))
      ensures storage.CellOf(|old(storage.chains)|) == Overwrite(Cell(None, []), activeTransactions[i].id, Some(row))
    {
      UB.ValidSlots(storage);
      ghost var records, origins, tableOf, chains := storage.records, storage.origins, storage.tableOf, storage.chains;
      ghost var slot := |storage.chains|;
      var rec := storage.PushInserted(table, row, activeTransactions[i].id);
      PushEntry(i, Origin(slot, row), [UB.Inserted(table, row)], records, origins, tableOf, chains);
    }

    /** The slot has been overwritten and nothing else has changed. */
    lemma WriteShows(s: State<nat, Tuple>, id: nat, slot: nat, v: Option<Tuple>)
      requires storage.Valid() && ShowsTransactions(s) && slot < |storage.chains|
      requires IsActive(s, id) && !Conflicts(CellAt(s.cells, slot), id)
      requires forall k: nat :: k in s.cells || k == slot <==> k < |storage.chains|
      requires forall k :: k in s.cells && k != slot ==> storage.CellOf(k) == s.cells[k]
      requires storage.CellOf(slot) == Overwrite(CellAt(s.cells, slot), id, v)
      ensures Shows(WriteStep(s, id, slot, v))
    {
    }

    /** A row has been written, live or deleted, and nothing else has changed. */
    lemma RowWriteShows(s: State<nat, Tuple>, id: nat, slot: nat, data: Tuple, v: Option<Tuple>)
      requires storage.Valid() && ShowsTransactions(s) && Writable(s, id, slot)
      requires forall k: nat :: k in s.cells <==> k < |storage.chains|
      requires forall k :: k in s.cells && k != slot ==> storage.CellOf(k) == s.cells[k]
      requires s.cells[slot].cur.Some? ==> s.cells[slot].cur.value == data
      requires storage.CellOf(slot) == Touched(s.cells[slot], data, id, v)
      ensures Shows(Apply(s, RowWrite(s.cells[slot], id, slot, data, v)))
    {
    }

    method ShowTouch(id: nat, slot: nat, ghost e: Event<nat, Tuple>)
      requires Consistent() && Writable(After(history), id, slot)
      requires var c := After(history).cells[slot]; e == RowWrite(c, id, slot, DataOf(storage.columns, slot), c.cur)
      modifies this`activeTransactions, this`stories, storage
      ensures storage.Valid() && Buffers() && Told() && Shows(After(history + [e]))
      ensures stories == old(stories)
      ensures storage.tableOf == old(storage.tableOf) && storage.columns == old(storage.columns)
    {
      ghost var v := storage.Base(slot);
      var i := Position(id);
      StampsDiffer(i);
      RecordTuple(i, slot);
      RowWriteShows(After(history), id, slot, storage.columns[slot], v);
      AfterStep(history, e);
    }

    method ShowErasure(id: nat, slot: nat, ghost e: Event<nat, Tuple>)
      requires Consistent() && Writable(After(history), id, slot)
      requires e == RowWrite(After(history).cells[slot], id, slot, DataOf(storage.columns, slot), None)
      modifies this`activeTransactions, this`stories, storage
      ensures storage.Valid() && Buffers() && Told() && Shows(After(history + [e]))
      ensures stories == old(stories)
      ensures storage.tableOf == old(storage.tableOf) && storage.columns == old(storage.columns)
    {
      var i := Position(id);
      StampsDiffer(i);
      RecordErasure(i, slot);
      RowWriteShows(After(history), id, slot, storage.columns[slot], None);
      AfterStep(history, e);
    }

    method ShowInsertion(id: nat, table: nat, row: Tuple)
      requires Consistent() && IsActive(After(history), id)
      modifies this`activeTransactions, this`stories, storage
      ensures storage.Valid() && Buffers() && Told()
      ensures stories == old(stories)[id := old(StoryOf(id)) + [UB.Inserted(table, row)]]
      ensures Shows(WriteStep(After(history), id, |old(storage.chains)|, Some(row)))
      ensures |storage.chains| == |old(storage.chains)| + 1 && storage.tableOf == old(storage.tableOf) + [table]
    {
      ghost var slot := |storage.chains|;
      var i := Position(id);
      StampsDiffer(i);
      RecordInsertion(i, table, row);
      WriteShows(After(history), id, slot, Some(row));
    }

    /** Moves a row into the undo buffer of a transaction; the base row stays as it is. */
    method TouchRow(id: nat, slot: nat)
      requires Valid() && Writable(After(history), id, slot)
      modifies this`activeTransactions, this`history, this`stories, storage
      ensures Valid() && stories == old(stories)
      ensures var c := After(old(history)).cells[slot];
        history == old(history) + [RowWrite(c, id, slot, DataOf(storage.columns, slot), c.cur)]
      ensures storage.tableOf == old(storage.tableOf) && storage.columns == old(storage.columns)
    {
      Open();
      ghost var c := After(history).cells[slot];
      ghost var e := RowWrite(c, id, slot, DataOf(storage.columns, slot), c.cur);
      ShowTouch(id, slot, e);
      history := history + [e];
      Open();
    }

    /** Deletes a row: the old version moves to the undo buffer and the base row is flagged. */
    method EraseRow(id: nat, slot: nat)
      requires Valid() && Writable(After(history), id, slot)
      modifies this`activeTransactions, this`history, this`stories, storage
      ensures Valid() && stories == old(stories)
      ensures history == old(history) + [RowWrite(After(old(history)).cells[slot], id, slot, DataOf(storage.columns, slot), None)]
      ensures storage.tableOf == old(storage.tableOf) && storage.columns == old(storage.columns)
    {
      Open();
      ghost var e := RowWrite(After(history).cells[slot], id, slot, DataOf(storage.columns, slot), None);
      ShowErasure(id, slot, e);
      history := history + [e];
      Open();
    }

    /** Appends a row: a new slot, invisible to everybody else until the transaction commits. */
    method AppendRow(id: nat, table: nat, row: Tuple)
      requires Valid() && IsActive(After(history), id)
      modifies this`activeTransactions, this`history, this`stories, storage
      ensures Valid() && history == old(history) + [Write(id, |old(storage.chains)|, Some(row))]
      ensures |storage.chains| == |old(storage.chains)| + 1 && storage.tableOf == old(storage.tableOf) + [table]
      ensures stories == old(stories)[id := old(StoryOf(id)) + [UB.Inserted(table, row)]]
    {
      Open();
      ghost var slot := |storage.chains|;
      ShowInsertion(id, table, row);
      AfterWrite(history, id, slot, Some(row));
      history := history + [Write(id, slot, Some(row))];
      Open();
    }

    /** A row with an uncommitted version of somebody else may not be written. */
    method CheckConflict(id: nat, slot: nat) returns (conflict: bool)
      requires Valid() && slot in After(history).cells
      ensures conflict == Conflicts(After(history).cells[slot], id)
    {
      Open();
      assert ChainOk(storage.records, storage.origins, storage.chains[slot], slot, storage.Base(slot));
      var version := storage.versionPointers[slot];
      if version.Some? {
        var number := storage.records[version.value].versionNumber;
        return number >= TRANSACTION_ID_START && number != id;
      }
      return false;
    }

    /** Deletes rows until the first conflict; the rows before it stay deleted. */
    method Delete(id: nat, slots: seq<nat>) returns (done: bool)
      requires Valid() && IsActive(After(history), id) && forall i :: 0 <= i < |slots| ==> slots[i] in After(history).cells
      modifies this`activeTransactions, this`history, this`stories, storage
      ensures Valid() && stories == old(stories)
      ensures var s := After(old(history));
              var n := Accepted(s.cells, id, slots);
              && done == (n == |slots|)
              && (Clean(old(history)) ==> (done <==> NobodyElseWrote(old(history), id, slots)))
              && history == old(history) + EraseEvents(s, id, slots, storage.columns)[..n]
      ensures storage.tableOf == old(storage.tableOf) && storage.columns == old(storage.columns)
    {
      ghost var h, s := history, After(history);
      ghost var es := EraseEvents(s, id, slots, storage.columns);
      var k := 0;
      assert h + es[..0] == h;
      while k < |slots|
        invariant 0 <= k <= |slots| && Valid() && history == h + es[..k]
        invariant stories == old(stories) && storage.tableOf == old(storage.tableOf) && storage.columns == old(storage.columns)
        invariant forall i :: 0 <= i < k ==> !Conflicts(CellAt(s.cells, slots[i]), id)
      {
        ErasesTakeEffect(h, id, slots, storage.columns, k);
        ConflictsStay(s, After(history), id, slots, k, true);
        var conflict := CheckConflict(id, slots[k]);
        if conflict {
          break;
        }
        FirstEvents(h, es, k);
        ErasesNext(s, After(history), id, slots, storage.columns, k);
        EraseRow(id, slots[k]);
        k := k + 1;
      }
      AcceptedIs(s.cells, id, slots, k);
      if Clean(h) { StopsExactly(h, id, slots); }
      return k == |slots|;
    }

    /** The first half of an update moves the old rows into the undo buffer, until the first conflict. */
    method TouchRows(id: nat, slots: seq<nat>) returns (n: nat)
      requires Valid() && IsActive(After(history), id) && forall i :: 0 <= i < |slots| ==> slots[i] in After(history).cells
      modifies this`activeTransactions, this`history, this`stories, storage
      ensures Valid() && n == Accepted(After(old(history)).cells, id, slots) && stories == old(stories)
      ensures history == old(history) + TouchEvents(After(old(history)), id, slots, storage.columns)[..n]
      ensures forall i :: 0 <= i < n ==> !Conflicts(CellAt(After(old(history)).cells, slots[i]), id)
      ensures storage.tableOf == old(storage.tableOf) && storage.columns == old(storage.columns)
    {
      ghost var h, s := history, After(history);
      ghost var es := TouchEvents(s, id, slots, storage.columns);
      n := 0;
      assert h + es[..0] == h;
      while n < |slots|
        invariant 0 <= n <= |slots| && Valid() && history == h + es[..n]
        invariant stories == old(stories) && storage.tableOf == old(storage.tableOf) && storage.columns == old(storage.columns)
        invariant forall i :: 0 <= i < n ==> !Conflicts(CellAt(s.cells, slots[i]), id)
      {
        TouchesTakeEffect(h, id, slots, storage.columns, n);
        ConflictsStay(s, After(history), id, slots, n, false);
        var conflict := CheckConflict(id, slots[n]);
        if conflict {
          break;
        }
        FirstEvents(h, es, n);
        TouchesNext(s, After(history), id, slots, storage.columns, n);
        TouchRow(id, slots[n]);
        n := n + 1;
      }
      AcceptedIs(s.cells, id, slots, n);
    }

    method ShowStored(slots: seq<nat>, columnIds: seq<nat>, updates: seq<seq<int>>, ghost id: nat, ghost t: State<nat, Tuple>, ghost u: State<nat, Tuple>)
      requires storage.Valid() && Shows(t)
      requires |updates| == |columnIds| && forall j :: 0 <= j < |updates| ==> |updates[j]| == |slots|
      requires forall i :: 0 <= i < |slots| ==> slots[i] in t.cells && HasOldVersion(t.cells[slots[i]], id)
      requires forall i, j :: 0 <= i < |slots| && 0 <= j < |columnIds| ==> columnIds[j] < |DataOf(storage.columns, slots[i])|
      requires Rewrites(t, u, slots, columnIds, updates, |slots|)
      modifies storage`columns, storage`deleted
      ensures storage.Valid() && Shows(u)
    {
      RowsSaved(t, slots, id);
      ghost var was := storage.columns;
      storage.StoreColumns(slots, columnIds, updates);
      forall k: nat | k in u.cells ensures storage.CellOf(k) == u.cells[k] {
        assert old(storage.CellOf(k)) == t.cells[k];
        StoredCell(slots, columnIds, updates, t, u, was, k);
      }
    }

    /** What the base row of a slot is after the columns were stored. */
    lemma StoredCell(slots: seq<nat>, columnIds: seq<nat>, updates: seq<seq<int>>, t: State<nat, Tuple>, u: State<nat, Tuple>, was: seq<Tuple>, k: nat)
      requires |updates| == |columnIds| && forall j :: 0 <= j < |updates| ==> |updates[j]| == |slots|
      requires storage.Valid() && k < |storage.chains| && |was| == |storage.chains| && k in t.cells && k in u.cells
      requires t.cells[k] == Cell(if storage.deleted[k] then None else Some(was[k]), storage.CellOf(k).undo)
      requires RewrittenAt(t, u, slots, columnIds, updates, |slots|, k)
      requires k !in slots ==> storage.columns[k] == was[k]
      requires forall i :: 0 <= i < |slots| && IsLast(slots, i) && slots[i] == k ==>
        storage.columns[k] == Assigned(was[k], columnIds, RowValues(updates, i))
      ensures storage.CellOf(k) == u.cells[k]
    {
    }

    lemma RowsSaved(t: State<nat, Tuple>, slots: seq<nat>, id: nat)
      requires storage.Valid() && Shows(t)
      requires forall i :: 0 <= i < |slots| ==> slots[i] in t.cells && HasOldVersion(t.cells[slots[i]], id)
      ensures forall i :: 0 <= i < |slots| ==> slots[i] < |storage.columns| && storage.Saved(slots[i])
    {
      forall i | 0 <= i < |slots| ensures storage.Saved(slots[i]) {
        assert storage.CellOf(slots[i]) == t.cells[slots[i]];
      }
    }

    /** The second half of an update overwrites the base rows. */
    method StoreRows(id: nat, slots: seq<nat>, columnIds: seq<nat>, updates: seq<seq<int>>, ghost h: History)
      requires Valid() && IsActive(After(h), id) && forall i :: 0 <= i < |slots| ==> slots[i] in After(h).cells
      requires forall i :: 0 <= i < |slots| ==> !Conflicts(After(h).cells[slots[i]], id)
      requires history == h + TouchEvents(After(h), id, slots, storage.columns)
      requires |updates| == |columnIds| && forall j :: 0 <= j < |updates| ==> |updates[j]| == |slots|
      requires forall i, j :: 0 <= i < |slots| && 0 <= j < |columnIds| ==> columnIds[j] < |DataOf(storage.columns, slots[i])|
      modifies this`history, storage`columns, storage`deleted
      ensures Valid() && history == h + StoreEvents(After(h), id, slots, old(storage.columns), columnIds, updates)
    {
      Open();
      ghost var h' := h + StoreEvents(After(h), id, slots, storage.columns, columnIds, updates);
      UpdateRewrites(h, id, slots, storage.columns, columnIds, updates);
      ShowStored(slots, columnIds, updates, id, After(history), After(h'));
      history := h';
      Open();
    }

    /** Updates columns of rows.  A conflict stops it before anything is overwritten, but the rows before the
        conflict already have a new record. */
    method Update(id: nat, slots: seq<nat>, columnIds: seq<nat>, updates: seq<seq<int>>) returns (done: bool)
      requires Valid() && IsActive(After(history), id) && forall i :: 0 <= i < |slots| ==> slots[i] in After(history).cells
      requires |updates| == |columnIds| && forall j :: 0 <= j < |updates| ==> |updates[j]| == |slots|
      requires forall i, j :: 0 <= i < |slots| && 0 <= j < |columnIds| ==> columnIds[j] < |DataOf(storage.columns, slots[i])|
      modifies this`activeTransactions, this`history, this`stories, storage
      ensures Valid() && stories == old(stories)
      ensures var s := After(old(history));
              var n := Accepted(s.cells, id, slots);
              && done == (n == |slots|)
              && (Clean(old(history)) ==> (done <==> NobodyElseWrote(old(history), id, slots)))
              && history == old(history) + if done then StoreEvents(s, id, slots, old(storage.columns), columnIds, updates)
                                           else TouchEvents(s, id, slots, old(storage.columns))[..n]
      ensures storage.tableOf == old(storage.tableOf)
    {
      ghost var h := history;
      var n := TouchRows(id, slots);
      if Clean(h) { StopsExactly(h, id, slots); }
      done := n == |slots|;
      if done {
        ghost var es := TouchEvents(After(h), id, slots, storage.columns);
        assert es[..n] == es;
        StoreRows(id, slots, columnIds, updates, h);
      }
    }

    /** Records a statement that the log has to repeat. */
    method RecordQuery(id: nat, query: string)
      requires Valid() && IsActive(After(history), id)
      modifies this`activeTransactions, this`stories
      ensures Valid() && stories == old(stories)[id := old(StoryOf(id)) + [UB.Asked(query)]]
    {
      Open();
      var i := Position(id);
      StampsDiffer(i);
      PushStatement(i, query);
      Open();
    }

    method PushStatement(i: nat, query: string)
      requires i < |activeTransactions| && Buffers() && Told() && StampsDistinct(i)
      modifies this`activeTransactions, this`stories
      ensures Buffers() && Told() && Actives(activeTransactions) == old(Actives(activeTransactions))
      ensures stories == old(stories)[old(activeTransactions[i].id) := old(StoryOf(activeTransactions[i].id)) + [UB.Asked(query)]]
    {
      var t := activeTransactions[i];
      var entry := UB.QueryEntry(query);
      TellsPush(storage.records, storage.origins, storage.tableOf, activeTransactions, stories, i, entry, [UB.Asked(query)]);
      UB.EntriesPush(storage.records, storage.origins, storage.tableOf, t.entries, entry, 0);
      assert UB.Tuples(t.entries + [entry]) == UB.Tuples(t.entries) + [] == UB.Tuples(t.entries);
      forall j | 0 <= j < |activeTransactions| ensures UB.Owns(storage, activeTransactions[j].entries, activeTransactions[j].id) {}
      activeTransactions := activeTransactions[i := t.(entries := t.entries + [entry])];
      stories := stories[t.id := stories[t.id] + [UB.Asked(query)]];
    }

    /** The start time and id that a running transaction reads with. */
    ghost function ReaderOf(id: nat): Reader
      requires IsActive(After(history), id)
      reads this
    {
      After(history).active[IndexOf(After(history).active, id)].AsReader()
    }

    /** Reads one row for a running transaction. */
    method ReadRow(id: nat, slot: nat) returns (row: Option<Tuple>, inBase: bool)
      requires Valid() && IsActive(After(history), id) && slot in After(history).cells
      ensures row == Visible(After(history).cells[slot], ReaderOf(id))
      ensures inBase == (After(history).cells[slot].undo == [] || Sees(ReaderOf(id), After(history).cells[slot].undo[0].stamp))
    {
      Open();
      var i := Position(id);
      row, inBase := storage.Read(slot, activeTransactions[i].id, activeTransactions[i].startTime);
    }

    /** The fields of a slot. */
    lemma SlotShows(slot: nat)
      requires Valid() && slot in After(history).cells
      ensures slot < |storage.chains| == |storage.versionPointers| == |storage.deleted| == |storage.columns|
      ensures storage.versionPointers[slot].None? <==> After(history).cells[slot].undo == []
      ensures After(history).cells[slot].cur == if storage.deleted[slot] then None else Some(storage.columns[slot])
    {
      Open();
      assert storage.CellOf(slot) == After(history).cells[slot];
    }

    lemma SlotsShow()
      requires Valid()
      ensures |storage.columns| == |storage.chains|
      ensures |storage.tableOf| == |storage.chains|
      ensures forall slot: nat :: slot in After(history).cells <==> slot < |storage.chains|
    {
      Open();
    }

    lemma TransactionsShow()
      requires Valid()
      ensures ShowsTransactions(After(history))
    {
      Open();
    }

    /** Appends rows to a table. */
    method Append(id: nat, table: nat, rows: seq<Tuple>)
      requires Valid() && IsActive(After(history), id)
      modifies this`activeTransactions, this`history, this`stories, storage
      ensures Valid()
      ensures |storage.chains| == |old(storage.chains)| + |rows| && storage.tableOf == old(storage.tableOf) + Copies(table, |rows|)
      ensures history == old(history) + WriteEvents(id, NewSlots(|old(storage.chains)|, |rows|), Somes(rows))
      ensures StoryOf(id) == old(StoryOf(id)) + Insertions(table, rows)
      ensures forall other :: other != id ==> StoryOf(other) == old(StoryOf(other))
    {
      ghost var h := history;
      ghost var slots := NewSlots(|storage.chains|, |rows|);
      var k := 0;
      while k < |rows|
        invariant 0 <= k <= |rows|
        invariant Valid() && |storage.chains| == |old(storage.chains)| + k && storage.tableOf == old(storage.tableOf) + Copies(table, k)
        invariant history == h + WriteEvents(id, slots[..k], Somes(rows)[..k])
        invariant StoryOf(id) == old(StoryOf(id)) + Insertions(table, rows[..k])
        invariant forall other :: other != id ==> StoryOf(other) == old(StoryOf(other))
      {
        StaysActive(h, id, slots[..k], Somes(rows)[..k]);
        WriteEventsStep(h, id, slots, Somes(rows), k);
        InsertionsPush(old(StoryOf(id)), table, rows, k);
        AppendRow(id, table, rows[k]);
        k := k + 1;
      }
      assert slots[..k] == slots && Somes(rows)[..k] == Somes(rows) && rows[..k] == rows;
    }

    /** The buffers of all transactions but one. */
    ghost predicate BuffersBut(i: nat)
      reads `activeTransactions, `recentlyCommitted, storage`records, storage`origins, storage`chains
    {
      && (forall j :: 0 <= j < |activeTransactions| && j != i ==>
            activeTransactions[j].commitId == 0 && UB.Owns(storage, activeTransactions[j].entries, activeTransactions[j].id))
      && (forall j :: 0 <= j < |recentlyCommitted| ==>
            UB.Owns(storage, recentlyCommitted[j].entries, recentlyCommitted[j].commitId))
    }

    /** No linked record carries a stamp that has not been given out. */
    lemma ClockUnused()
      requires storage.Valid() && Shows(After(history)) && currentStartTimestamp < TRANSACTION_ID_START
      ensures forall s, p :: 0 <= s < |storage.chains| && 0 <= p < |storage.chains[s]| ==>
        && storage.chains[s][p] < |storage.records|
        && storage.records[storage.chains[s][p]].versionNumber != currentStartTimestamp
      ensures forall j :: 0 <= j < |recentlyCommitted| ==> recentlyCommitted[j].commitId != currentStartTimestamp
      ensures forall j :: 0 <= j < |activeTransactions| ==> activeTransactions[j].id != currentStartTimestamp
    {
      var s := After(history);
      AfterInv(history);
      forall k, p | 0 <= k < |storage.chains| && 0 <= p < |storage.chains[k]|
        ensures storage.chains[k][p] < |storage.records| && storage.records[storage.chains[k][p]].versionNumber != currentStartTimestamp
      {
        assert s.cells[k].undo[p].stamp == storage.records[storage.chains[k][p]].versionNumber;
        assert Listed(s.active, s.recent, s.cells[k].undo[p].stamp);
      }
      forall j | 0 <= j < |recentlyCommitted| ensures recentlyCommitted[j].commitId != currentStartTimestamp {
        assert s.recent[j].commitId == recentlyCommitted[j].commitId;
      }
      forall j | 0 <= j < |activeTransactions| ensures activeTransactions[j].id != currentStartTimestamp {
        assert s.active[j].id == activeTransactions[j].id;
      }
    }

    /** Stamps all records of the transaction at position i with the next time stamp. */
    method StampAll(i: nat) returns (log: seq<UB.LogRecord>)
      requires Consistent() && i < |activeTransactions| && currentStartTimestamp < TRANSACTION_ID_START
      modifies storage`records
      ensures storage.Valid() && Told() && BuffersBut(i)
      ensures UB.Owns(storage, activeTransactions[i].entries, currentStartTimestamp)
      ensures |storage.chains| == |old(storage.chains)|
      ensures forall s :: 0 <= s < |storage.chains| ==>
        storage.CellOf(s) == Restamp(old(storage.CellOf(s)), activeTransactions[i].id, currentStartTimestamp)
      ensures UB.WellSized(log) && UB.OneFlush(log)
      ensures forall t :: UB.LogItems(log, t) == UB.Story(StoryOf(activeTransactions[i].id), t)
    {
      StampsDiffer(i);
      ClockUnused();
      UB.ValidSlots(storage);
      var id, commitId := activeTransactions[i].id, currentStartTimestamp;
      ghost var own := UB.Tuples(activeTransactions[i].entries);
      ghost var records := storage.records;
      log := UB.Commit(storage, activeTransactions[i].entries, id, commitId);
      assert UB.Stamped(records, storage.records, own, commitId);
      TellsFrame(records, storage.records, storage.origins, storage.origins, storage.tableOf, storage.tableOf, activeTransactions, stories);
      StampedOwner(records, storage.records, storage.origins, storage.chains, own, id, commitId);
      forall j | 0 <= j < |activeTransactions| && j != i {
        StampedKeepsOwner(records, storage.records, storage.origins, storage.chains, own, id, commitId,
                          UB.Tuples(activeTransactions[j].entries), activeTransactions[j].id);
      }
      forall j | 0 <= j < |recentlyCommitted| {
        StampedKeepsOwner(records, storage.records, storage.origins, storage.chains, own, id, commitId,
                          UB.Tuples(recentlyCommitted[j].entries), recentlyCommitted[j].commitId);
      }
      forall s | 0 <= s < |storage.chains| ensures storage.CellOf(s) == Restamp(old(storage.CellOf(s)), id, commitId) {
        StampedCell(records, storage.records, storage.origins, storage.chains, own, id, commitId, s, storage.Base(s));
      }
    }

    /** The lowest start time and the lowest running query of all transactions but one. */
    method LowestOthers(i: nat) returns (lowestStart: nat, lowestQuery: nat)
      requires i < |activeTransactions|
      ensures lowestStart == LowestStart(Without(Actives(activeTransactions), i))
      ensures lowestQuery == LowestQuery(Without(Actives(activeTransactions), i))
    {
      lowestStart, lowestQuery := TRANSACTION_ID_START, MAXIMUM_QUERY_ID;
      ghost var a := Actives(activeTransactions);
      ghost var seen: seq<Active> := [];
      var j := 0;
      while j < |activeTransactions|
        invariant 0 <= j <= |activeTransactions|
        invariant seen == if j <= i then a[..j] else a[..i] + a[i + 1..j]
        invariant lowestStart == LowestStart(seen) && lowestQuery == LowestQuery(seen)
      {
        if j != i {
          LowestSnoc(seen, a[j]);
          lowestStart := Min(lowestStart, activeTransactions[j].startTime);
          lowestQuery := Min(lowestQuery, activeTransactions[j].activeQuery);
          LowestBounds(seen);
          seen := seen + [a[j]];
        }
        j := j + 1;
      }
      assert seen == Without(a, i);
    }

    /** The buffers of all running transactions, and of the committed ones from position i on. */
    ghost predicate BuffersFrom(i: nat)
      reads `activeTransactions, `recentlyCommitted, storage`records, storage`origins, storage`chains
    {
      OwnedFrom(storage.records, storage.origins, storage.chains, i)
    }

    ghost predicate OwnedFrom(records: seq<VersionInformation>, origins: seq<Origin>, chains: seq<seq<nat>>, i: nat)
      reads `activeTransactions, `recentlyCommitted
    {
      && (forall j :: 0 <= j < |activeTransactions| ==>
            && activeTransactions[j].commitId == 0
            && UB.OwnsAll(records, origins, chains, UB.Tuples(activeTransactions[j].entries), activeTransactions[j].id))
      && (forall j :: i <= j < |recentlyCommitted| ==>
            UB.OwnsAll(records, origins, chains, UB.Tuples(recentlyCommitted[j].entries), recentlyCommitted[j].commitId))
    }

    /** The i-th commit id marks only the records of that transaction. */
    ghost predicate CommitIdAlone(i: nat)
      requires i < |recentlyCommitted|
      reads `activeTransactions, `recentlyCommitted
    {
      && (forall j :: 0 <= j < |activeTransactions| ==> activeTransactions[j].id != recentlyCommitted[i].commitId)
      && (forall j :: i < j < |recentlyCommitted| ==> recentlyCommitted[j].commitId != recentlyCommitted[i].commitId)
    }

    lemma LostKeepsFrom(records: seq<VersionInformation>, chains: seq<seq<nat>>, i: nat)
      requires i < |recentlyCommitted| && CommitIdAlone(i) && OwnedFrom(records, storage.origins, chains, i)
      requires UB.OnlyLost(records, storage.records, storage.origins, chains, storage.chains, recentlyCommitted[i].commitId)
      ensures BuffersFrom(i + 1)
    {
      LostKeepsBuffers(records, chains, recentlyCommitted[i].commitId, |activeTransactions|, i + 1);
    }

    /** All commits before position i have been cleaned up. */
    ghost predicate CleanedBefore(s: State<nat, Tuple>, i: nat)
      requires storage.Valid() && i <= |s.recent|
      reads storage
    {
      CleanedTo(s.cells, Reached(s.recent, i))
    }

    /** Every slot is as in the given cells but for the stamps below the floor.  The counter is as in Folded. */
    ghost predicate CleanedTo(cells: map<nat, Cell<Tuple>>, floor: nat, n: nat := CLOSED)
      requires storage.Valid()
      reads storage
      decreases |cells|, n
    {
      if n > 0 then CleanedTo(cells, floor, n - 1) else
      && (forall k: nat :: k in cells <==> k < |storage.chains|)
      && (forall k: nat :: k in cells ==> storage.CellOf(k) == Purge(cells[k], floor))
    }

    lemma {:induction false} OpenCleaned(cells: map<nat, Cell<Tuple>>, floor: nat, n: nat := CLOSED)
      requires storage.Valid()
      ensures CleanedTo(cells, floor, n) == CleanedTo(cells, floor, 0)
      decreases n
    {
      if n > 0 { OpenCleaned(cells, floor, n - 1); }
    }

    /** The next transaction to clean up is the only one with its commit id, and nothing older is left. */
    lemma ReadyToClean(s: State<nat, Tuple>, i: nat)
      requires storage.Valid() && Inv(s) && s.active == Actives(activeTransactions) && s.recent == Committeds(recentlyCommitted)
      requires i < |recentlyCommitted| && CleanedBefore(s, i)
      ensures UB.NoneOlder(storage, recentlyCommitted[i].commitId)
      ensures CommitIdAlone(i)
    {
      OpenCleaned(s.cells, Reached(s.recent, i));
      forall k: nat | k < |storage.chains|
        ensures UB.NoneOlderIn(storage.CellOf(k), recentlyCommitted[i].commitId)
      {
        NothingBelow(s, k, i, Reached(s.recent, i));
      }
      forall j | 0 <= j < |activeTransactions| ensures activeTransactions[j].id != recentlyCommitted[i].commitId {
        assert s.active[j].id == activeTransactions[j].id;
      }
      forall j | i < j < |recentlyCommitted| ensures recentlyCommitted[j].commitId != recentlyCommitted[i].commitId {
        assert s.recent[j].commitId == recentlyCommitted[j].commitId;
      }
    }

    /** Losing the records with one stamp leaves the buffers of everybody with another stamp as they were. */
    lemma LostKeepsBuffers(records: seq<VersionInformation>, chains: seq<seq<nat>>, stamp: nat, but: nat, from: nat)
      requires UB.OnlyLost(records, storage.records, storage.origins, chains, storage.chains, stamp)
      requires forall j :: 0 <= j < |activeTransactions| && j != but ==>
        && activeTransactions[j].id != stamp
        && UB.OwnsAll(records, storage.origins, chains, UB.Tuples(activeTransactions[j].entries), activeTransactions[j].id)
      requires forall j :: from <= j < |recentlyCommitted| ==>
        && recentlyCommitted[j].commitId != stamp
        && UB.OwnsAll(records, storage.origins, chains, UB.Tuples(recentlyCommitted[j].entries), recentlyCommitted[j].commitId)
      ensures forall j :: 0 <= j < |activeTransactions| && j != but ==>
        UB.Owns(storage, activeTransactions[j].entries, activeTransactions[j].id)
      ensures forall j :: from <= j < |recentlyCommitted| ==>
        UB.Owns(storage, recentlyCommitted[j].entries, recentlyCommitted[j].commitId)
    {
      forall j | 0 <= j < |activeTransactions| && j != but
        ensures UB.Owns(storage, activeTransactions[j].entries, activeTransactions[j].id)
      {
        UB.OnlyLostKeepsOwner(records, storage.records, storage.origins, chains, storage.chains, stamp,
                              UB.Tuples(activeTransactions[j].entries), activeTransactions[j].id);
      }
      forall j | from <= j < |recentlyCommitted|
        ensures UB.Owns(storage, recentlyCommitted[j].entries, recentlyCommitted[j].commitId)
      {
        UB.OnlyLostKeepsOwner(records, storage.records, storage.origins, chains, storage.chains, stamp,
                              UB.Tuples(recentlyCommitted[j].entries), recentlyCommitted[j].commitId);
      }
    }

    method CleanupCells(entries: seq<UB.UndoEntry>, ghost commitId: nat, ghost cells: map<nat, Cell<Tuple>>, ghost floor: nat)
      requires storage.Valid() && UB.Owns(storage, entries, commitId) && UB.NoneOlder(storage, commitId)
      requires CleanedTo(cells, floor) && floor <= commitId + 1
      modifies storage
      ensures storage.Valid() && CleanedTo(cells, commitId + 1) && storage.origins == old(storage.origins) && storage.tableOf == old(storage.tableOf)
      ensures UB.OnlyLost(old(storage.records), storage.records, storage.origins, old(storage.chains), storage.chains, commitId)
    {
      OpenCleaned(cells, floor);
      UB.Cleanup(storage, entries, commitId);
      OpenCleaned(cells, commitId + 1);
      forall k: nat | k in cells ensures storage.CellOf(k) == Purge(cells[k], commitId + 1) {
        PurgeTwice(cells[k], floor, commitId + 1);
      }
    }

    lemma LostKeepsTold(records: seq<VersionInformation>, chains: seq<seq<nat>>, stamp: nat)
      requires UB.OnlyLost(records, storage.records, storage.origins, chains, storage.chains, stamp)
      requires Tells(records, storage.origins, storage.tableOf, activeTransactions, stories)
      ensures Told()
    {
      TellsFrame(records, storage.records, storage.origins, storage.origins, storage.tableOf, storage.tableOf, activeTransactions, stories);
    }

    /** Cleans up one committed transaction. */
    method CleanupNext(i: nat, ghost cells: map<nat, Cell<Tuple>>, ghost floor: nat)
      requires storage.Valid() && Told() && i < |recentlyCommitted| && BuffersFrom(i) && CommitIdAlone(i)
      requires CleanedTo(cells, floor) && floor <= recentlyCommitted[i].commitId + 1
      requires UB.NoneOlder(storage, recentlyCommitted[i].commitId)
      modifies storage
      ensures storage.Valid() && Told() && BuffersFrom(i + 1) && CleanedTo(cells, recentlyCommitted[i].commitId + 1)
      ensures storage.tableOf == old(storage.tableOf)
    {
      ghost var records, chains := storage.records, storage.chains;
      CleanupCells(recentlyCommitted[i].entries, recentlyCommitted[i].commitId, cells, floor);
      LostKeepsTold(records, chains, recentlyCommitted[i].commitId);
      LostKeepsFrom(records, chains, i);
    }

    lemma AllCleaned(s: State<nat, Tuple>, i: nat, floor: nat)
      requires storage.Valid() && Inv(s) && floor == LowestStart(s.active) && i == Expired(s.recent, floor)
      requires CleanedBefore(s, i)
      ensures ShowsCells(MapPurge(s.cells, floor))
    {
      OpenCleaned(s.cells, Reached(s.recent, i));
      forall k: nat | k in s.cells ensures storage.CellOf(k) == Purge(s.cells[k], floor) {
        CleanedUpTo(s, k, i, floor, Reached(s.recent, i));
      }
    }

    /** One round of the cleanup of committed transactions. */
    method CleanupRound(i: nat, ghost s: State<nat, Tuple>)
      requires storage.Valid() && Told() && Inv(s) && s.active == Actives(activeTransactions) && s.recent == Committeds(recentlyCommitted)
      requires i < |recentlyCommitted| && BuffersFrom(i) && CleanedBefore(s, i)
      modifies storage
      ensures storage.Valid() && Told() && BuffersFrom(i + 1) && CleanedBefore(s, i + 1)
      ensures storage.tableOf == old(storage.tableOf)
    {
      ReadyToClean(s, i);
      assert s.recent[i].commitId == recentlyCommitted[i].commitId;
      CleanupNext(i, s.cells, Reached(s.recent, i));
    }

    method DropCommitted(i: nat)
      requires i <= |recentlyCommitted| && BuffersFrom(i)
      modifies this`recentlyCommitted
      ensures Buffers() && recentlyCommitted == old(recentlyCommitted)[i..]
    {
      recentlyCommitted := recentlyCommitted[i..];
    }

    /** The undo data of an unlinked transaction waits until no query that may be using it is left. */
    method Retire(transaction: Transaction)
      modifies this`oldTransactions
      ensures Retireds(oldTransactions) == old(Retireds(oldTransactions)) + [Retired(transaction.id, currentQueryNumber)]
    {
      oldTransactions := oldTransactions + [transaction.(highestActiveQuery := currentQueryNumber)];
    }

    /** The first i committed transactions have been cleaned up and have retired. */
    ghost predicate CleanedAndRetired(s: State<nat, Tuple>, i: nat)
      reads this, storage
    {
      && storage.Valid() && Told() && Inv(s) && s.active == Actives(activeTransactions) && s.recent == Committeds(recentlyCommitted)
      && i <= |recentlyCommitted| && BuffersFrom(i) && CleanedBefore(s, i)
      && Retireds(oldTransactions) == s.retired + RetireAll(s.recent[..i], currentQueryNumber)
    }

    method CleanupAndRetire(i: nat, ghost s: State<nat, Tuple>)
      requires CleanedAndRetired(s, i) && i < |recentlyCommitted|
      modifies this`oldTransactions, storage
      ensures CleanedAndRetired(s, i + 1) && storage.tableOf == old(storage.tableOf)
    {
      CleanupRound(i, s);
      RetireOneMore(s.recent, i, currentQueryNumber);
      Retire(recentlyCommitted[i]);
    }

    /** Cleans up committed transactions up to the first one that some running transaction may need. */
    method CleanupWhile(floor: nat, ghost s: State<nat, Tuple>) returns (i: nat)
      requires CleanedAndRetired(s, 0)
      modifies this`oldTransactions, storage
      ensures CleanedAndRetired(s, i) && i == Expired(s.recent, floor) && storage.tableOf == old(storage.tableOf)
    {
      i := 0;
      while i < |recentlyCommitted| && recentlyCommitted[i].commitId < floor
        invariant CleanedAndRetired(s, i) && storage.tableOf == old(storage.tableOf)
        invariant forall j :: 0 <= j < i ==> s.recent[j].commitId < floor
      {
        CleanupAndRetire(i, s);
        i := i + 1;
      }
      ExpiredAt(s.recent, floor, i);
    }

    /** Cleans up, in commit order, every committed transaction that no running transaction needs. */
    method CleanupExpired(floor: nat, ghost s: State<nat, Tuple>)
      requires storage.Valid() && Told() && Buffers() && Shows(s) && Inv(s) && floor == LowestStart(s.active)
      modifies this`recentlyCommitted, this`oldTransactions, storage
      ensures storage.Valid() && Told() && Buffers()
      ensures recentlyCommitted == old(recentlyCommitted)[Expired(s.recent, floor)..]
      ensures Retireds(oldTransactions) == s.retired + RetireAll(s.recent[..Expired(s.recent, floor)], currentQueryNumber)
      ensures ShowsCells(MapPurge(s.cells, floor))
      ensures storage.tableOf == old(storage.tableOf)
    {
      CleanedNone(s);
      var i := CleanupWhile(floor, s);
      AllCleaned(s, i, floor);
      DropCommitted(i);
    }

    lemma CleanedNone(s: State<nat, Tuple>)
      requires storage.Valid() && ShowsCells(s.cells)
      ensures CleanedBefore(s, 0)
    {
      OpenCleaned(s.cells, 0);
      forall k: nat | k in s.cells ensures storage.CellOf(k) == Purge(s.cells[k], 0) {
        KeepZero(s.cells[k].undo);
      }
    }

    /** Frees the memory of transactions from the front of the queue until one may still be in use. */
    method FreeOld(lowestQuery: nat)
      modifies this`oldTransactions
      ensures var r := old(Retireds(oldTransactions));
        Retireds(oldTransactions) == r[if activeTransactions == [] then |r| else Freeable(r, lowestQuery)..]
    {
      var i := if |activeTransactions| == 0 then |oldTransactions| else 0;
      while i < |oldTransactions|
        invariant 0 <= i <= |oldTransactions|
        invariant activeTransactions == [] ==> i == |oldTransactions|
        invariant activeTransactions != [] ==> forall j :: 0 <= j < i ==> Retireds(oldTransactions)[j].highest < lowestQuery
      {
        if oldTransactions[i].highestActiveQuery >= lowestQuery {
          break;
        }
        i := i + 1;
      }
      if activeTransactions != [] {
        FreeableAt(Retireds(oldTransactions), lowestQuery, i);
      }
      oldTransactions := oldTransactions[i..];
    }

    /** The transaction at position i leaves the list of running transactions. */
    method Unlist(i: nat, ghost s: State<nat, Tuple>)
      requires storage.Valid() && Told() && Shows(s) && i < |activeTransactions| && BuffersBut(i)
      requires activeTransactions[i].commitId != 0 ==>
        UB.Owns(storage, activeTransactions[i].entries, activeTransactions[i].commitId)
      modifies this`activeTransactions, this`recentlyCommitted, this`oldTransactions
      ensures Told() && Buffers() && Shows(Mvcc.Unlist(s, i, old(activeTransactions[i].commitId)))
    {
      var transaction := activeTransactions[i];
      if transaction.commitId != 0 {
        recentlyCommitted := recentlyCommitted + [transaction];
      } else {
        Retire(transaction);
      }
      activeTransactions := activeTransactions[..i] + activeTransactions[i + 1..];
      assert Actives(activeTransactions) == Without(s.active, i);
    }

    lemma CollectShown(t: State<nat, Tuple>, n: nat, all: seq<Retired>)
      requires storage.Valid() && ShowsCells(MapPurge(t.cells, LowestStart(t.active)))
      requires t.clock == currentStartTimestamp && t.nextId == currentTransactionId && t.nextQuery == currentQueryNumber
      requires t.active == Actives(activeTransactions) && n == Expired(t.recent, LowestStart(t.active))
      requires Committeds(recentlyCommitted) == t.recent[n..]
      requires all == t.retired + RetireAll(t.recent[..n], t.nextQuery)
      requires Retireds(oldTransactions)
            == all[if activeTransactions == [] then |all| else Freeable(all, LowestQuery(t.active))..]
      ensures Shows(Collect(t))
    {
      assert activeTransactions == [] <==> t.active == [];
    }

    /** Unlinks the undo data that nobody can need and frees what no running query can use. */
    method CollectGarbage(lowestStart: nat, lowestQuery: nat, ghost t: State<nat, Tuple>)
      requires storage.Valid() && Told() && Buffers() && Shows(t) && Inv(t)
      requires lowestStart == LowestStart(t.active) && lowestQuery == LowestQuery(t.active)
      modifies this`recentlyCommitted, this`oldTransactions, storage
      ensures storage.Valid() && Told() && Buffers() && Shows(Collect(t))
      ensures storage.tableOf == old(storage.tableOf)
    {
      ghost var recent := recentlyCommitted;
      CleanupExpired(lowestStart, t);
      ghost var n, all := Expired(t.recent, lowestStart), Retireds(oldTransactions);
      assert Committeds(recentlyCommitted) == Committeds(recent)[n..];
      FreeOld(lowestQuery);
      CollectShown(t, n, all);
    }

    /** Removes a finished transaction, and collects whatever nobody needs any more. */
    method RemoveTransaction(i: nat, ghost s: State<nat, Tuple>)
      requires storage.Valid() && Told() && Shows(s) && i < |activeTransactions| && BuffersBut(i)
      requires Inv(Mvcc.Unlist(s, i, activeTransactions[i].commitId))
      requires activeTransactions[i].commitId != 0 ==>
        UB.Owns(storage, activeTransactions[i].entries, activeTransactions[i].commitId)
      modifies this`activeTransactions, this`recentlyCommitted, this`oldTransactions, storage
      ensures storage.Valid() && Told() && Buffers()
      ensures Shows(Collect(Mvcc.Unlist(s, i, old(activeTransactions[i].commitId))))
      ensures storage.tableOf == old(storage.tableOf)
    {
      ghost var t := Mvcc.Unlist(s, i, activeTransactions[i].commitId);
      var lowestStart, lowestQuery := LowestOthers(i);
      Unlist(i, s);
      CollectGarbage(lowestStart, lowestQuery, t);
    }

    /** Takes the next time stamp as the commit id of the transaction at position i. */
    method Mark(i: nat, ghost s: State<nat, Tuple>)
      requires i < |activeTransactions| && Told() && BuffersBut(i) && ShowsTransactions(s)
      modifies this`activeTransactions, this`currentStartTimestamp
      ensures Told() && BuffersBut(i) && ShowsTransactions(s.(clock := s.clock + 1))
      ensures |activeTransactions| == |old(activeTransactions)|
      ensures activeTransactions[i] == old(activeTransactions[i]).(commitId := s.clock)
    {
      var commitId := currentStartTimestamp;
      currentStartTimestamp := currentStartTimestamp + 1;
      activeTransactions := activeTransactions[i := activeTransactions[i].(commitId := commitId)];
      assert Actives(activeTransactions) == s.active;
    }

    /** Stamps the undo buffer: what the slots show is what the transition system makes of them. */
    method StampShown(i: nat, ghost s: State<nat, Tuple>) returns (log: seq<UB.LogRecord>)
      requires Consistent() && i < |activeTransactions| && currentStartTimestamp < TRANSACTION_ID_START
      requires s == After(history)
      modifies storage`records
      ensures storage.Valid() && Told() && BuffersBut(i) && ShowsTransactions(s)
      ensures UB.Owns(storage, activeTransactions[i].entries, s.clock)
      ensures ShowsCells(MapRestamp(s.cells, activeTransactions[i].id, s.clock))
      ensures UB.WellSized(log) && UB.OneFlush(log)
      ensures forall t :: UB.LogItems(log, t) == UB.Story(StoryOf(activeTransactions[i].id), t)
    {
      log := StampAll(i);
    }

    /** Stamps the undo buffer and takes the next time stamp. */
    method ShowStamps(i: nat, ghost s: State<nat, Tuple>) returns (log: seq<UB.LogRecord>)
      requires Consistent() && i < |activeTransactions| && currentStartTimestamp < TRANSACTION_ID_START
      requires s == After(history)
      modifies this`activeTransactions, this`currentStartTimestamp, storage`records
      ensures storage.Valid() && Told() && BuffersBut(i) && |activeTransactions| == |old(activeTransactions)|
      ensures activeTransactions[i] == old(activeTransactions[i]).(commitId := s.clock)
      ensures UB.Owns(storage, activeTransactions[i].entries, s.clock)
      ensures Shows(s.(clock := s.clock + 1, cells := MapRestamp(s.cells, activeTransactions[i].id, s.clock)))
      ensures UB.WellSized(log) && UB.OneFlush(log)
      ensures forall t :: UB.LogItems(log, t) == UB.Story(StoryOf(activeTransactions[i].id), t)
    {
      log := StampShown(i, s);
      Mark(i, s);
    }

    method ShowCommit(id: nat, ghost s: State<nat, Tuple>) returns (log: seq<UB.LogRecord>)
      requires Consistent() && s == After(history) && Inv(s) && Enabled(s, Event.Commit(id))
      modifies this`activeTransactions, this`recentlyCommitted, this`oldTransactions, this`currentStartTimestamp, storage
      ensures storage.Valid() && Told() && Buffers() && Shows(CommitStep(s, id))
      ensures UB.WellSized(log) && UB.OneFlush(log)
      ensures forall t :: UB.LogItems(log, t) == UB.Story(StoryOf(id), t)
      ensures storage.tableOf == old(storage.tableOf)
    {
      CommitIds(s, id);
      CommitKeepsUnlisted(s, id);
      var i := Position(id);
      log := ShowStamps(i, s);
      RemoveTransaction(i, s.(clock := s.clock + 1, cells := MapRestamp(s.cells, id, s.clock)));
    }

    /** Commits: stamps and logs everything the transaction wrote, and removes it. */
    method Commit(id: nat) returns (log: seq<UB.LogRecord>)
      requires Valid() && Enabled(After(history), Event.Commit(id))
      modifies this, storage
      ensures Valid() && history == old(history) + [Event.Commit(id)] && stories == old(stories)
      ensures UB.WellSized(log) && UB.OneFlush(log)
      ensures forall t :: UB.LogItems(log, t) == UB.Story(old(StoryOf(id)), t)
      ensures storage.tableOf == old(storage.tableOf)
    {
      Open();
      AfterInv(history);
      log := ShowCommit(id, After(history));
      AfterCommit(history, id);
      history := history + [Event.Commit(id)];
      Open();
    }

    /** Puts every row the transaction wrote back as it was. */
    method RevertAll(i: nat)
      requires Consistent() && i < |activeTransactions|
      requires Uncommitted(activeTransactions[i].id) && forall s :: 0 <= s < |storage.chains| ==> WellFormed(storage.CellOf(s))
      modifies storage
      ensures storage.Valid() && Told() && BuffersBut(i) && |storage.chains| == |old(storage.chains)|
      ensures forall s :: 0 <= s < |storage.chains| ==> storage.CellOf(s) == Revert(old(storage.CellOf(s)), activeTransactions[i].id)
      ensures storage.tableOf == old(storage.tableOf)
    {
      StampsDiffer(i);
      ghost var records, chains := storage.records, storage.chains;
      UB.Rollback(storage, activeTransactions[i].entries, activeTransactions[i].id);
      TellsFrame(records, storage.records, storage.origins, storage.origins, storage.tableOf, storage.tableOf, activeTransactions, stories);
      LostKeepsBuffers(records, chains, activeTransactions[i].id, i, 0);
    }

    method ShowRollback(id: nat, ghost s: State<nat, Tuple>)
      requires Consistent() && s == After(history) && Inv(s) && IsActive(s, id)
      modifies this`activeTransactions, this`recentlyCommitted, this`oldTransactions, storage
      ensures storage.Valid() && Told() && Buffers() && Shows(RollbackStep(s, id))
      ensures storage.tableOf == old(storage.tableOf)
    {
      RollbackKeepsUnlisted(s, id);
      var i := Position(id);
      ChainsWellFormed(i);
      RevertAll(i);
      RemoveTransaction(i, s.(cells := MapRevert(s.cells, id)));
    }

    /** Rolls back: undoes the transaction's entries in reverse, and removes it. */
    method Rollback(id: nat)
      requires Valid() && IsActive(After(history), id)
      modifies this, storage
      ensures Valid() && history == old(history) + [Event.Rollback(id)] && stories == old(stories)
      ensures storage.tableOf == old(storage.tableOf)
    {
      Open();
      AfterInv(history);
      ShowRollback(id, After(history));
      AfterRollback(history, id);
      history := history + [Event.Rollback(id)];
      Open();
    }

    lemma ChainsWellFormed(i: nat)
      requires Consistent() && i < |activeTransactions|
      ensures Uncommitted(activeTransactions[i].id) && forall s :: 0 <= s < |storage.chains| ==> WellFormed(storage.CellOf(s))
    {
      AfterInv(history);
      assert Actives(activeTransactions)[i].id == activeTransactions[i].id;
      forall s | 0 <= s < |storage.chains| ensures WellFormed(storage.CellOf(s)) {
        assert After(history).cells[s] == storage.CellOf(s);
      }
    }
  }
}
