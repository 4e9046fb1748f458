/** Why no two rows of a table ever share a key: the transition system together with the unique index of a table.

  The index keeps a node for every key a row ever had.  Before a row gets a key, every node with
  that key is checked against the chain of its row. */
module Uniqueness {
  import opened Versions
  import opened Mvcc
  import opened TableStorage

  type Key = seq<int>

  function Project(row: Tuple, columns: seq<nat>): (key: Key)
    ensures |key| == |columns|
  {
    seq(|columns|, i requires 0 <= i < |columns| => if columns[i] < |row| then row[columns[i]] else NULL_VALUE)
  }

  /** The key of a row; rows with a NULL in it have none. */
  function KeyOf(v: Option<Tuple>, columns: seq<nat>): Option<Key> {
    match v
    case None => None
    case Some(row) => if NULL_VALUE in Project(row, columns) then None else Some(Project(row, columns))
  }

  datatype IndexEntry = IndexEntry(key: Key, row: nat)

  /** `own` are the rows of the indexed table; the other rows belong to other tables. */
  datatype Db = Db(state: State<nat, Tuple>, index: set<IndexEntry>, own: set<nat>)

  /** Whether a version that the reader does not see yet, or the one it sees below them, has the key. */
  function HiddenHas(c: Cell<Tuple>, r: Reader, key: Key, columns: seq<nat>): bool
    decreases |c.undo|
  {
    && c.undo != [] && !Sees(r, c.undo[0].stamp)
    && (KeyOf(c.undo[0].before, columns) == Some(key) || HiddenHas(Pop(c), r, key, columns))
  }

  /** Whether a node with the key stands in the way of a new row with that key. */
  function Blocks(c: Cell<Tuple>, r: Reader, ignored: bool, key: Key, columns: seq<nat>): bool {
    (!ignored && KeyOf(c.cur, columns) == Some(key)) || HiddenHas(c, r, key, columns)
  }

  /** A key is free if none of its nodes blocks it. */
  ghost predicate Free(db: Db, r: Reader, ignored: seq<nat>, key: Key, columns: seq<nat>) {
    forall e :: e in db.index && e.key == key ==> !Blocks(CellAt(db.state.cells, e.row), r, e.row in ignored, key, columns)
  }

  /** The rows of one call have different keys, all of them free. */
  ghost predicate Admitted(db: Db, r: Reader, slots: seq<nat>, values: seq<Option<Tuple>>, columns: seq<nat>)
    requires |slots| == |values|
  {
    && (forall i, j :: 0 <= i < j < |values| && KeyOf(values[i], columns).Some? ==> KeyOf(values[i], columns) != KeyOf(values[j], columns))
    && (forall i :: 0 <= i < |values| && KeyOf(values[i], columns).Some? ==> Free(db, r, slots, KeyOf(values[i], columns).value, columns))
  }

  function WriteAll(s: State<nat, Tuple>, id: nat, slots: seq<nat>, values: seq<Option<Tuple>>): State<nat, Tuple>
    requires |slots| == |values|
  {
    if slots == [] then s else
    var n := |slots| - 1;
    WriteStep(WriteAll(s, id, slots[..n], values[..n]), id, slots[n], values[n])
  }

  /** Writes by a running transaction that nobody stands in the way of. */
  ghost predicate MayWrite(s: State<nat, Tuple>, id: nat, slots: seq<nat>) {
    IsActive(s, id) && AllDistinct(slots) && forall i :: 0 <= i < |slots| ==> !Conflicts(CellAt(s.cells, slots[i]), id)
  }

  lemma {:induction false} WriteAllTakesEffect(s: State<nat, Tuple>, id: nat, slots: seq<nat>, values: seq<Option<Tuple>>)
    requires |slots| == |values| && MayWrite(s, id, slots)
    ensures var t := WriteAll(s, id, slots, values);
      && t == s.(cells := t.cells)
      && (forall i :: 0 <= i < |slots| ==> slots[i] in t.cells && t.cells[slots[i]] == Overwrite(CellAt(s.cells, slots[i]), id, values[i]))
      && (forall k :: k !in slots ==> (k in t.cells <==> k in s.cells) && CellAt(t.cells, k) == CellAt(s.cells, k))
  {
    if slots != [] {
      var n := |slots| - 1;
      WriteAllTakesEffect(s, id, slots[..n], values[..n]);
      LastTakesEffect(s, WriteAll(s, id, slots[..n], values[..n]), id, slots, values, n);
    }
  }

  lemma LastTakesEffect(s: State<nat, Tuple>, t: State<nat, Tuple>, id: nat, slots: seq<nat>, values: seq<Option<Tuple>>, n: nat)
    requires n + 1 == |slots| == |values| && MayWrite(s, id, slots) && t == s.(cells := t.cells)
    requires forall i :: 0 <= i < n ==> slots[i] in t.cells && t.cells[slots[i]] == Overwrite(CellAt(s.cells, slots[i]), id, values[i])
    requires forall k :: k !in slots[..n] ==> (k in t.cells <==> k in s.cells) && CellAt(t.cells, k) == CellAt(s.cells, k)
    ensures var u := WriteStep(t, id, slots[n], values[n]);
      && u == s.(cells := u.cells)
      && (forall i :: 0 <= i < |slots| ==> slots[i] in u.cells && u.cells[slots[i]] == Overwrite(CellAt(s.cells, slots[i]), id, values[i]))
      && (forall k :: k !in slots ==> (k in u.cells <==> k in s.cells) && CellAt(u.cells, k) == CellAt(s.cells, k))
  {
    assert slots[n] !in slots[..n] && !Conflicts(CellAt(s.cells, slots[n]), id);
    assert WriteStep(t, id, slots[n], values[n]) == t.(cells := t.cells[slots[n] := Overwrite(CellAt(t.cells, slots[n]), id, values[n])]);
    assert slots == slots[..n] + [slots[n]];
  }

  // ----- the steps -----

  datatype Step =
    /** Starts, commits, rollbacks and queries. */
    | Plain(event: Event<nat, Tuple>)
    /** An append, or an update of key columns: new values for rows, checked against the index. */
    | Keyed(id: nat, slots: seq<nat>, values: seq<Option<Tuple>>)
    /** A delete, an update of other columns, or an update that stopped at a conflict: no row changes its key. */
    | Unkeyed(id: nat, slots: seq<nat>, values: seq<Option<Tuple>>)
    /** Any writes to rows of other tables. */
    | Foreign(id: nat, slots: seq<nat>, values: seq<Option<Tuple>>)
    /** The new keys of an update whose rows are then not written. */
    | KeysOnly(id: nat, slots: seq<nat>, values: seq<Option<Tuple>>)
    /** A row that is deleted already is deleted or updated again; it stays deleted. */
    | Again(id: nat, slot: nat, data: Tuple)

  ghost function NewEntries(slots: seq<nat>, values: seq<Option<Tuple>>, columns: seq<nat>): set<IndexEntry>
    requires |slots| == |values|
  {
    set i | 0 <= i < |slots| && KeyOf(values[i], columns).Some? :: IndexEntry(KeyOf(values[i], columns).value, slots[i])
  }

  ghost predicate KeepsKeys(s: State<nat, Tuple>, slots: seq<nat>, values: seq<Option<Tuple>>, columns: seq<nat>)
    requires |slots| == |values|
  {
    forall i :: 0 <= i < |slots| ==> values[i] == None || KeyOf(values[i], columns) == KeyOf(CellAt(s.cells, slots[i]).cur, columns)
  }

  ghost function ReaderFor(s: State<nat, Tuple>, id: nat): Reader
    requires IsActive(s, id)
  {
    s.active[IndexOf(s.active, id)].AsReader()
  }

  /** The rows are the table's own, or new ones. */
  ghost predicate Takes(db: Db, slots: seq<nat>) {
    forall i :: 0 <= i < |slots| ==> slots[i] in db.own || slots[i] !in db.state.cells
  }

  ghost predicate Owns(db: Db, slots: seq<nat>) {
    forall i :: 0 <= i < |slots| ==> slots[i] in db.own
  }

  ghost predicate OwnsNone(db: Db, slots: seq<nat>) {
    forall i :: 0 <= i < |slots| ==> slots[i] !in db.own
  }

  ghost function SlotSet(slots: seq<nat>): set<nat> { set slot | slot in slots }

  /** A step that is not allowed changes nothing.  An update whose keys were admitted and that then meets a conflict
      leaves its nodes in the index; the rows before the conflict are an Unkeyed step of their own. */
  ghost function Next(db: Db, e: Step, columns: seq<nat>): Db {
    match e
    case Plain(event) => if Writes(event) then db else db.(state := Apply(db.state, event))
    case Keyed(id, slots, values) =>
      if |slots| == |values| && IsActive(db.state, id) && AllDistinct(slots) && Takes(db, slots)
        && Admitted(db, ReaderFor(db.state, id), slots, values, columns)
      then
        var index := db.index + NewEntries(slots, values, columns);
        if MayWrite(db.state, id, slots) then Db(WriteAll(db.state, id, slots, values), index, db.own + SlotSet(slots))
        else db.(index := index)
      else db
    case Unkeyed(id, slots, values) =>
      if |slots| == |values| && MayWrite(db.state, id, slots) && Owns(db, slots) && KeepsKeys(db.state, slots, values, columns)
      then db.(state := WriteAll(db.state, id, slots, values)) else db
    case Foreign(id, slots, values) =>
      if |slots| == |values| && MayWrite(db.state, id, slots) && OwnsNone(db, slots)
      then db.(state := WriteAll(db.state, id, slots, values)) else db
    case KeysOnly(id, slots, values) =>
      if |slots| == |values| && IsActive(db.state, id) && Admitted(db, ReaderFor(db.state, id), slots, values, columns)
      then db.(index := db.index + NewEntries(slots, values, columns)) else db
    case Again(id, slot, data) =>
      if WritesAgain(db, id, slot, data, columns) then db.(state := Apply(db.state, Rewrite(id, slot, data, None))) else db
  }

  /** The row was in the table with this data, is deleted, and nobody else has a hold on it. */
  ghost predicate WritesAgain(db: Db, id: nat, slot: nat, data: Tuple, columns: seq<nat>) {
    && slot in db.own && Enabled(db.state, Rewrite(id, slot, data, None))
    && (KeyOf(Some(data), columns).Some? ==> IndexEntry(KeyOf(Some(data), columns).value, slot) in db.index)
  }

  /** No other row has taken the key of the row that is written again, in a commit or in a running transaction other than
      the writer.  A row that the writer itself has deleted still has its key. */
  ghost predicate KeyNotReused(db: Db, e: Step, columns: seq<nat>) {
    e.Again? && WritesAgain(db, e.id, e.slot, e.data, columns) && !OwnedBy(CellAt(db.state.cells, e.slot), e.id) ==>
      forall q :: q in db.own && q != e.slot ==> ApartFromAgain(CellAt(db.state.cells, q), e.id, KeyOf(Some(e.data), columns), columns)
  }

  ghost predicate ApartFromAgain(c: Cell<Tuple>, id: nat, key: Option<Key>, columns: seq<nat>) {
    Apart(key, KeyOf(CommittedValue(c), columns)) && (OwnedBy(c, id) || Apart(key, KeyOf(c.cur, columns)))
  }

  ghost function RunSteps(steps: seq<Step>, columns: seq<nat>): Db {
    if steps == [] then Db(Init(), {}, {}) else Next(RunSteps(steps[..|steps| - 1], columns), steps[|steps| - 1], columns)
  }

  // ----- what keeps keys apart -----

  ghost predicate Apart(a: Option<Key>, b: Option<Key>) {
    a.Some? ==> a != b
  }

  ghost predicate SameOwner(c: Cell<Tuple>, d: Cell<Tuple>) {
    c.undo != [] && d.undo != [] && Uncommitted(c.undo[0].stamp) && c.undo[0].stamp == d.undo[0].stamp
  }

  /** Neither the current nor the committed values of two rows share a key, nor the current value of one and the
      committed value of the other, unless both belong to the same running transaction. */
  ghost predicate KeysApart(c: Cell<Tuple>, d: Cell<Tuple>, columns: seq<nat>) {
    && Apart(KeyOf(c.cur, columns), KeyOf(d.cur, columns))
    && Apart(KeyOf(CommittedValue(c), columns), KeyOf(CommittedValue(d), columns))
    && (SameOwner(c, d) ||
        (Apart(KeyOf(c.cur, columns), KeyOf(CommittedValue(d), columns)) && Apart(KeyOf(CommittedValue(c), columns), KeyOf(d.cur, columns))))
  }

  ghost predicate AllApart(cells: map<nat, Cell<Tuple>>, own: set<nat>, columns: seq<nat>) {
    forall p, q :: p in own && q in own && p != q ==> KeysApart(CellAt(cells, p), CellAt(cells, q), columns)
  }

  ghost predicate NodeFor(index: set<IndexEntry>, v: Option<Tuple>, row: nat, columns: seq<nat>) {
    KeyOf(v, columns).Some? ==> IndexEntry(KeyOf(v, columns).value, row) in index
  }

  /** There is a node for the key of every version of a row. */
  ghost predicate HasNodes(index: set<IndexEntry>, c: Cell<Tuple>, row: nat, columns: seq<nat>) {
    && NodeFor(index, c.cur, row, columns)
    && forall i :: 0 <= i < |c.undo| ==> NodeFor(index, c.undo[i].before, row, columns)
  }

  lemma {:induction false} CommittedHasNode(index: set<IndexEntry>, c: Cell<Tuple>, row: nat, columns: seq<nat>)
    requires HasNodes(index, c, row, columns)
    ensures NodeFor(index, CommittedValue(c), row, columns)
    decreases |c.undo|
  {
    if c.undo != [] && Uncommitted(c.undo[0].stamp) { CommittedHasNode(index, Pop(c), row, columns); }
  }

  lemma OverwriteHasNodes(index: set<IndexEntry>, c: Cell<Tuple>, id: nat, v: Option<Tuple>, row: nat, columns: seq<nat>)
    requires HasNodes(index, c, row, columns) && NodeFor(index, v, row, columns)
    ensures HasNodes(index, Overwrite(c, id, v), row, columns)
  {
    var o := Overwrite(c, id, v);
    assert forall i :: 0 < i < |o.undo| ==> o.undo[i] == c.undo[i - 1];
  }

  lemma {:induction false} RevertHasNodes(index: set<IndexEntry>, c: Cell<Tuple>, id: nat, row: nat, columns: seq<nat>)
    requires HasNodes(index, c, row, columns)
    ensures HasNodes(index, Revert(c, id), row, columns)
    decreases |c.undo|
  {
    if OwnedBy(c, id) { RevertHasNodes(index, Pop(c), id, row, columns); }
  }

  ghost predicate AllHaveNodes(index: set<IndexEntry>, cells: map<nat, Cell<Tuple>>, own: set<nat>, columns: seq<nat>) {
    forall p :: p in own ==> HasNodes(index, CellAt(cells, p), p, columns)
  }

  ghost predicate UniqueInv(db: Db, columns: seq<nat>) {
    && Inv(db.state)
    && db.own <= db.state.cells.Keys
    && AllApart(db.state.cells, db.own, columns)
    && AllHaveNodes(db.index, db.state.cells, db.own, columns)
  }

  lemma {:induction false} OwnedCommitted(c: Cell<Tuple>)
    requires WellFormed(c) && (c.undo == [] || !Uncommitted(c.undo[0].stamp))
    ensures CommittedValue(c) == c.cur
  {
  }

  /** If somebody else is at the row, the reader's check meets the committed value. */
  lemma {:induction false} CommittedIsHidden(c: Cell<Tuple>, r: Reader, key: Key, columns: seq<nat>)
    requires WellFormed(c) && r.start <= TRANSACTION_ID_START
    requires c.undo != [] && Uncommitted(c.undo[0].stamp) && c.undo[0].stamp != r.id
    requires KeyOf(CommittedValue(c), columns) == Some(key)
    ensures HiddenHas(c, r, key, columns)
    decreases |c.undo|
  {
    var p := Pop(c);
    PopWellFormed(c);
    if p.undo == [] || !Uncommitted(p.undo[0].stamp) {
      assert CommittedValue(c) == CommittedValue(p) == p.cur;
    } else {
      assert p.undo[0] == c.undo[1];
      CommittedIsHidden(p, r, key, columns);
    }
  }

  /** A key that the check lets through is neither the current key of another row, nor its committed key, unless that row
      belongs to the same transaction. */
  lemma FreeIsApart(c: Cell<Tuple>, row: nat, index: set<IndexEntry>, r: Reader, key: Key, columns: seq<nat>)
    requires WellFormed(c) && r.start <= TRANSACTION_ID_START && HasNodes(index, c, row, columns)
    requires IndexEntry(key, row) in index ==> !Blocks(c, r, false, key, columns)
    ensures KeyOf(c.cur, columns) != Some(key)
    ensures OwnedBy(c, r.id) || KeyOf(CommittedValue(c), columns) != Some(key)
  {
    CommittedHasNode(index, c, row, columns);
    if KeyOf(CommittedValue(c), columns) == Some(key) && !OwnedBy(c, r.id) {
      if c.undo == [] || !Uncommitted(c.undo[0].stamp) {
        OwnedCommitted(c);
      } else {
        CommittedIsHidden(c, r, key, columns);
      }
    }
  }

  // ----- writes -----

  /** The new key of a row is kept apart from all rows of the table that are not written. */
  ghost predicate ApartFromOthers(db: Db, id: nat, slots: seq<nat>, key: Option<Key>, columns: seq<nat>) {
    forall q :: q in db.own && q !in slots ==> ApartFrom(CellAt(db.state.cells, q), id, key, columns)
  }

  ghost predicate ApartFrom(c: Cell<Tuple>, id: nat, key: Option<Key>, columns: seq<nat>) {
    && Apart(key, KeyOf(c.cur, columns))
    && (OwnedBy(c, id) || Apart(key, KeyOf(CommittedValue(c), columns)))
  }

  lemma WrittenPair(c: Cell<Tuple>, d: Cell<Tuple>, id: nat, v: Option<Tuple>, columns: seq<nat>)
    requires KeysApart(c, d, columns) && Uncommitted(id) && !Conflicts(c, id) && ApartFrom(d, id, KeyOf(v, columns), columns)
    ensures KeysApart(Overwrite(c, id, v), d, columns) && KeysApart(d, Overwrite(c, id, v), columns)
  {
    OverwriteCommitted(c, id, v);
  }

  lemma WrittenBoth(c: Cell<Tuple>, d: Cell<Tuple>, id: nat, v: Option<Tuple>, w: Option<Tuple>, columns: seq<nat>)
    requires KeysApart(c, d, columns) && Uncommitted(id) && Apart(KeyOf(v, columns), KeyOf(w, columns))
    ensures KeysApart(Overwrite(c, id, v), Overwrite(d, id, w), columns)
  {
    OverwriteCommitted(c, id, v);
    OverwriteCommitted(d, id, w);
  }

  /** A row that does not exist yet has no keys. */
  lemma NewApart(db: Db, p: nat, q: nat, columns: seq<nat>)
    requires AllApart(db.state.cells, db.own, columns) && p != q
    requires p in db.own || p !in db.state.cells
    requires q in db.own || q !in db.state.cells
    ensures KeysApart(CellAt(db.state.cells, p), CellAt(db.state.cells, q), columns)
  {
  }

  /** What a write step asks of the new values. */
  ghost predicate Separates(db: Db, id: nat, slots: seq<nat>, values: seq<Option<Tuple>>, columns: seq<nat>)
    requires |slots| == |values|
  {
    && (forall i, j :: 0 <= i < |values| && 0 <= j < |values| && i != j ==> Apart(KeyOf(values[i], columns), KeyOf(values[j], columns)))
    && (forall i :: 0 <= i < |values| ==> ApartFromOthers(db, id, slots, KeyOf(values[i], columns), columns))
  }

  lemma WrittenApart(db: Db, id: nat, slots: seq<nat>, values: seq<Option<Tuple>>, columns: seq<nat>, p: nat, q: nat)
    requires UniqueInv(db, columns) && |slots| == |values| && MayWrite(db.state, id, slots) && Takes(db, slots)
    requires Separates(db, id, slots, values, columns)
    requires p in db.own + SlotSet(slots) && q in db.own + SlotSet(slots) && p != q
    ensures var t := WriteAll(db.state, id, slots, values); KeysApart(CellAt(t.cells, p), CellAt(t.cells, q), columns)
  {
    var s := db.state;
    WriteAllTakesEffect(s, id, slots, values);
    assert Uncommitted(id) by { assert s.active[IndexOf(s.active, id)].id == id; }
    NewApart(db, p, q, columns);
    NewApart(db, q, p, columns);
    if p in slots && q in slots {
      var i :| 0 <= i < |slots| && slots[i] == p;
      var j :| 0 <= j < |slots| && slots[j] == q;
      WrittenBoth(CellAt(s.cells, p), CellAt(s.cells, q), id, values[i], values[j], columns);
    } else if p in slots {
      var i :| 0 <= i < |slots| && slots[i] == p;
      assert ApartFromOthers(db, id, slots, KeyOf(values[i], columns), columns);
      WrittenPair(CellAt(s.cells, p), CellAt(s.cells, q), id, values[i], columns);
    } else if q in slots {
      var i :| 0 <= i < |slots| && slots[i] == q;
      assert ApartFromOthers(db, id, slots, KeyOf(values[i], columns), columns);
      WrittenPair(CellAt(s.cells, q), CellAt(s.cells, p), id, values[i], columns);
    }
  }

  lemma WrittenHasNodes(db: Db, index: set<IndexEntry>, id: nat, slots: seq<nat>, values: seq<Option<Tuple>>, columns: seq<nat>, p: nat)
    requires UniqueInv(db, columns) && |slots| == |values| && MayWrite(db.state, id, slots) && Takes(db, slots) && db.index <= index
    requires forall i :: 0 <= i < |values| && KeyOf(values[i], columns).Some? ==> IndexEntry(KeyOf(values[i], columns).value, slots[i]) in index
    requires p in db.own + SlotSet(slots)
    ensures HasNodes(index, CellAt(WriteAll(db.state, id, slots, values).cells, p), p, columns)
  {
    var s := db.state;
    WriteAllTakesEffect(s, id, slots, values);
    assert Uncommitted(id) by { assert s.active[IndexOf(s.active, id)].id == id; }
    assert p in db.own ==> HasNodes(db.index, CellAt(s.cells, p), p, columns);
    if p in slots {
      var i :| 0 <= i < |slots| && slots[i] == p;
      OverwriteHasNodes(index, CellAt(s.cells, p), id, values[i], p, columns);
    }
  }

  /** Writes with separate keys that all have nodes keep the keys apart. */
  lemma WritesKeepUnique(db: Db, index: set<IndexEntry>, id: nat, slots: seq<nat>, values: seq<Option<Tuple>>, columns: seq<nat>)
    requires UniqueInv(db, columns) && |slots| == |values| && MayWrite(db.state, id, slots) && Takes(db, slots) && db.index <= index
    requires Separates(db, id, slots, values, columns)
    requires forall i :: 0 <= i < |values| && KeyOf(values[i], columns).Some? ==> IndexEntry(KeyOf(values[i], columns).value, slots[i]) in index
    ensures UniqueInv(Db(WriteAll(db.state, id, slots, values), index, db.own + SlotSet(slots)), columns)
  {
    var t, own := WriteAll(db.state, id, slots, values), db.own + SlotSet(slots);
    WriteAllKeepsInv(db.state, id, slots, values);
    WriteAllTakesEffect(db.state, id, slots, values);
    forall p, q | p in own && q in own && p != q ensures KeysApart(CellAt(t.cells, p), CellAt(t.cells, q), columns) {
      WrittenApart(db, id, slots, values, columns, p, q);
    }
    forall p | p in own ensures HasNodes(index, CellAt(t.cells, p), p, columns) {
      WrittenHasNodes(db, index, id, slots, values, columns, p);
    }
    forall p | p in own ensures p in t.cells {
      if p in slots { var i :| 0 <= i < |slots| && slots[i] == p; }
    }
  }

  lemma {:induction false} WriteAllKeepsInv(s: State<nat, Tuple>, id: nat, slots: seq<nat>, values: seq<Option<Tuple>>)
    requires Inv(s) && |slots| == |values|
    ensures Inv(WriteAll(s, id, slots, values))
  {
    if slots != [] {
      var n := |slots| - 1;
      WriteAllKeepsInv(s, id, slots[..n], values[..n]);
      var t := WriteAll(s, id, slots[..n], values[..n]);
      ApplyKeepsInv(t, Write(id, slots[n], values[n]));
    }
  }

  lemma KeyedKeepsUnique(db: Db, id: nat, slots: seq<nat>, values: seq<Option<Tuple>>, columns: seq<nat>)
    requires UniqueInv(db, columns)
    ensures UniqueInv(Next(db, Keyed(id, slots, values), columns), columns)
  {
    var s := db.state;
    if |slots| == |values| && IsActive(s, id) && AllDistinct(slots) && Takes(db, slots) && Admitted(db, ReaderFor(s, id), slots, values, columns) {
      var r := ReaderFor(s, id);
      var index := db.index + NewEntries(slots, values, columns);
      assert r.id == id && r.start <= TRANSACTION_ID_START;
      if MayWrite(s, id, slots) {
        forall i | 0 <= i < |values| ensures ApartFromOthers(db, id, slots, KeyOf(values[i], columns), columns) {
          if KeyOf(values[i], columns).Some? {
            FreeFromOthers(db, r, slots, KeyOf(values[i], columns).value, columns);
          }
        }
        WritesKeepUnique(db, index, id, slots, values, columns);
      } else {
        forall p | p in db.own ensures HasNodes(index, CellAt(s.cells, p), p, columns) {
          assert HasNodes(db.index, CellAt(s.cells, p), p, columns);
        }
      }
    }
  }

  lemma FreeFromOthers(db: Db, r: Reader, slots: seq<nat>, key: Key, columns: seq<nat>)
    requires UniqueInv(db, columns) && r.start <= TRANSACTION_ID_START && Free(db, r, slots, key, columns)
    ensures ApartFromOthers(db, r.id, slots, Some(key), columns)
  {
    forall q | q in db.own && q !in slots ensures ApartFrom(CellAt(db.state.cells, q), r.id, Some(key), columns) {
      assert IndexEntry(key, q).key == key && CellAt(db.state.cells, q) == db.state.cells[q];
      assert HasNodes(db.index, CellAt(db.state.cells, q), q, columns);
      FreeIsApart(CellAt(db.state.cells, q), q, db.index, r, key, columns);
    }
  }

  lemma UnkeyedSeparates(db: Db, id: nat, slots: seq<nat>, values: seq<Option<Tuple>>, columns: seq<nat>)
    requires UniqueInv(db, columns) && |slots| == |values| && MayWrite(db.state, id, slots) && Owns(db, slots) && KeepsKeys(db.state, slots, values, columns)
    ensures Separates(db, id, slots, values, columns)
  {
    forall i | 0 <= i < |values| ensures ApartFromOthers(db, id, slots, KeyOf(values[i], columns), columns) {
      forall q | q in db.own && q !in slots ensures ApartFrom(CellAt(db.state.cells, q), id, KeyOf(values[i], columns), columns) {
        NewApart(db, slots[i], q, columns);
      }
    }
    forall i, j | 0 <= i < |values| && 0 <= j < |values| && i != j ensures Apart(KeyOf(values[i], columns), KeyOf(values[j], columns)) {
      NewApart(db, slots[i], slots[j], columns);
    }
  }

  lemma UnkeyedKeepsUnique(db: Db, id: nat, slots: seq<nat>, values: seq<Option<Tuple>>, columns: seq<nat>)
    requires UniqueInv(db, columns)
    ensures UniqueInv(Next(db, Unkeyed(id, slots, values), columns), columns)
  {
    var s := db.state;
    if |slots| == |values| && MayWrite(s, id, slots) && Owns(db, slots) && KeepsKeys(s, slots, values, columns) {
      UnkeyedSeparates(db, id, slots, values, columns);
      forall i | 0 <= i < |values| && KeyOf(values[i], columns).Some?
        ensures IndexEntry(KeyOf(values[i], columns).value, slots[i]) in db.index
      {
        assert HasNodes(db.index, CellAt(s.cells, slots[i]), slots[i], columns);
      }
      WritesKeepUnique(db, db.index, id, slots, values, columns);
      assert db.own + SlotSet(slots) == db.own;
    }
  }

  lemma ForeignKeepsUnique(db: Db, id: nat, slots: seq<nat>, values: seq<Option<Tuple>>, columns: seq<nat>)
    requires UniqueInv(db, columns)
    ensures UniqueInv(Next(db, Foreign(id, slots, values), columns), columns)
  {
    var s := db.state;
    if |slots| == |values| && MayWrite(s, id, slots) && OwnsNone(db, slots) {
      var t := WriteAll(s, id, slots, values);
      WriteAllKeepsInv(s, id, slots, values);
      WriteAllTakesEffect(s, id, slots, values);
      forall p | p in db.own ensures p in t.cells && CellAt(t.cells, p) == CellAt(s.cells, p) {
        assert p !in slots;
      }
      forall p, q | p in db.own && q in db.own && p != q ensures KeysApart(CellAt(t.cells, p), CellAt(t.cells, q), columns) {
        assert KeysApart(CellAt(s.cells, p), CellAt(s.cells, q), columns);
      }
      forall p | p in db.own ensures HasNodes(db.index, CellAt(t.cells, p), p, columns) {
        assert HasNodes(db.index, CellAt(s.cells, p), p, columns);
      }
    }
  }

  // ----- commit, rollback and cleanup -----

  lemma CommittedPair(c: Cell<Tuple>, d: Cell<Tuple>, id: nat, commitId: nat, columns: seq<nat>)
    requires KeysApart(c, d, columns) && WellFormed(c) && WellFormed(d) && Uncommitted(id) && !Uncommitted(commitId)
    ensures KeysApart(Restamp(c, id, commitId), Restamp(d, id, commitId), columns)
  {
    RestampCommitted(c, id, commitId);
    RestampCommitted(d, id, commitId);
  }

  lemma {:induction false} RevertedIsCommitted(c: Cell<Tuple>, id: nat)
    requires WellFormed(c) && Uncommitted(id) && OwnedBy(c, id)
    ensures Revert(c, id).cur == CommittedValue(c) == CommittedValue(Revert(c, id))
    ensures Revert(c, id).undo == [] || !Uncommitted(Revert(c, id).undo[0].stamp)
    decreases |c.undo|
  {
    var p := Pop(c);
    PopWellFormed(c);
    if OwnedBy(p, id) {
      RevertedIsCommitted(p, id);
    } else if p.undo != [] {
      assert p.undo[0] == c.undo[1];
    }
  }

  lemma RevertedPair(c: Cell<Tuple>, d: Cell<Tuple>, id: nat, columns: seq<nat>)
    requires KeysApart(c, d, columns) && WellFormed(c) && WellFormed(d) && Uncommitted(id)
    ensures KeysApart(Revert(c, id), Revert(d, id), columns)
  {
    if OwnedBy(c, id) { RevertedIsCommitted(c, id); }
    if OwnedBy(d, id) { RevertedIsCommitted(d, id); }
  }

  lemma PurgedCell(c: Cell<Tuple>, floor: nat)
    requires WellFormed(c) && floor <= TRANSACTION_ID_START
    ensures CommittedValue(Purge(c, floor)) == CommittedValue(c)
    ensures c.undo != [] && Uncommitted(c.undo[0].stamp) ==> Purge(c, floor).undo != [] && Purge(c, floor).undo[0] == c.undo[0]
  {
    PurgeCommitted(c, floor);
    KeepIsPrefix(c.undo, floor);
  }

  lemma PurgedPair(c: Cell<Tuple>, d: Cell<Tuple>, floor: nat, columns: seq<nat>)
    requires KeysApart(c, d, columns) && WellFormed(c) && WellFormed(d) && floor <= TRANSACTION_ID_START
    ensures KeysApart(Purge(c, floor), Purge(d, floor), columns)
  {
    PurgedCell(c, floor);
    PurgedCell(d, floor);
  }

  lemma CollectKeepsUnique(db: Db, columns: seq<nat>)
    requires UniqueInv(db, columns)
    ensures UniqueInv(db.(state := Collect(db.state)), columns)
  {
    var s, t := db.state, Collect(db.state);
    CollectKeepsInv(s);
    LowestStartIsMin(s.active);
    forall p, q | p in db.own && q in db.own && p != q ensures KeysApart(CellAt(t.cells, p), CellAt(t.cells, q), columns) {
      assert KeysApart(CellAt(s.cells, p), CellAt(s.cells, q), columns);
      PurgedPair(s.cells[p], s.cells[q], LowestStart(s.active), columns);
    }
    forall p | p in db.own ensures HasNodes(db.index, CellAt(t.cells, p), p, columns) {
      KeepIsPrefix(s.cells[p].undo, LowestStart(s.active));
      assert HasNodes(db.index, CellAt(s.cells, p), p, columns);
    }
  }

  lemma CommitKeepsUnique(db: Db, id: nat, columns: seq<nat>)
    requires UniqueInv(db, columns) && Enabled(db.state, Commit(id))
    ensures UniqueInv(db.(state := CommitStep(db.state, id)), columns)
  {
    var s := db.state;
    var t := Unlist(s.(clock := s.clock + 1, cells := MapRestamp(s.cells, id, s.clock)), IndexOf(s.active, id), s.clock);
    CommitKeepsUnlisted(s, id);
    assert Uncommitted(id) by { assert s.active[IndexOf(s.active, id)].id == id; }
    forall p, q | p in db.own && q in db.own && p != q ensures KeysApart(CellAt(t.cells, p), CellAt(t.cells, q), columns) {
      assert KeysApart(CellAt(s.cells, p), CellAt(s.cells, q), columns);
      CommittedPair(s.cells[p], s.cells[q], id, s.clock, columns);
    }
    forall p | p in db.own ensures HasNodes(db.index, CellAt(t.cells, p), p, columns) {
      assert HasNodes(db.index, CellAt(s.cells, p), p, columns);
    }
    CollectKeepsUnique(db.(state := t), columns);
  }

  lemma RollbackKeepsUnique(db: Db, id: nat, columns: seq<nat>)
    requires UniqueInv(db, columns) && IsActive(db.state, id)
    ensures UniqueInv(db.(state := RollbackStep(db.state, id)), columns)
  {
    var s := db.state;
    var t := Unlist(s.(cells := MapRevert(s.cells, id)), IndexOf(s.active, id), 0);
    RollbackKeepsUnlisted(s, id);
    assert Uncommitted(id) by { assert s.active[IndexOf(s.active, id)].id == id; }
    forall p, q | p in db.own && q in db.own && p != q ensures KeysApart(CellAt(t.cells, p), CellAt(t.cells, q), columns) {
      assert KeysApart(CellAt(s.cells, p), CellAt(s.cells, q), columns);
      RevertedPair(s.cells[p], s.cells[q], id, columns);
    }
    forall p | p in db.own ensures HasNodes(db.index, CellAt(t.cells, p), p, columns) {
      assert HasNodes(db.index, CellAt(s.cells, p), p, columns);
      RevertHasNodes(db.index, s.cells[p], id, p, columns);
    }
    CollectKeepsUnique(db.(state := t), columns);
  }

  lemma PlainKeepsUnique(db: Db, event: Event<nat, Tuple>, columns: seq<nat>)
    requires UniqueInv(db, columns) && !Writes(event) && Enabled(db.state, event)
    ensures UniqueInv(db.(state := Apply(db.state, event)), columns)
  {
    ApplyKeepsInv(db.state, event);
    if event.Commit? {
      CommitKeepsUnique(db, event.id, columns);
    } else if event.Rollback? {
      RollbackKeepsUnique(db, event.id, columns);
    } else {
      assert Apply(db.state, event).cells == db.state.cells;
    }
  }

  /** One pair of rows, when one of them is written again. */
  lemma AgainPair(c: Cell<Tuple>, d: Cell<Tuple>, id: nat, data: Tuple, columns: seq<nat>)
    requires KeysApart(c, d, columns) && KeysApart(d, c, columns) && Uncommitted(id) && !Conflicts(c, id) && c.cur.None?
    ensures var t := Touched(c, data, id, None);
      (KeysApart(t, d, columns) && KeysApart(d, t, columns))
        <==> (OwnedBy(c, id) || ApartFromAgain(d, id, KeyOf(Some(data), columns), columns))
  {
    TouchedCommitted(c, data, id, None);
  }

  lemma AgainCell(db: Db, id: nat, slot: nat, data: Tuple, columns: seq<nat>)
    requires UniqueInv(db, columns) && WritesAgain(db, id, slot, data, columns)
    ensures var next := Next(db, Again(id, slot, data), columns);
      && Uncommitted(id) && next == db.(state := next.state) && Inv(next.state)
      && next.state.cells == db.state.cells[slot := Touched(db.state.cells[slot], data, id, None)]
      && HasNodes(db.index, next.state.cells[slot], slot, columns)
  {
    var c := db.state.cells[slot];
    ApplyKeepsInv(db.state, Rewrite(id, slot, data, None));
    assert db.state.active[IndexOf(db.state.active, id)].id == id;
    assert HasNodes(db.index, CellAt(db.state.cells, slot), slot, columns);
    assert forall i :: 0 < i < |Touched(c, data, id, None).undo| ==> Touched(c, data, id, None).undo[i] == c.undo[i - 1];
  }

  /** Writing a deleted row again keeps the keys apart exactly when nobody has taken its key. */
  lemma AgainKeepsUniqueExactly(db: Db, id: nat, slot: nat, data: Tuple, columns: seq<nat>)
    requires UniqueInv(db, columns) && WritesAgain(db, id, slot, data, columns)
    ensures UniqueInv(Next(db, Again(id, slot, data), columns), columns) <==> KeyNotReused(db, Again(id, slot, data), columns)
  {
    var next, c := Next(db, Again(id, slot, data), columns), db.state.cells[slot];
    AgainCell(db, id, slot, data, columns);
    forall q | q in db.own && q != slot
      ensures (KeysApart(CellAt(next.state.cells, slot), CellAt(next.state.cells, q), columns)
               && KeysApart(CellAt(next.state.cells, q), CellAt(next.state.cells, slot), columns))
        <==> (OwnedBy(c, id) || ApartFromAgain(CellAt(db.state.cells, q), id, KeyOf(Some(data), columns), columns))
    {
      assert KeysApart(CellAt(db.state.cells, slot), CellAt(db.state.cells, q), columns);
      assert KeysApart(CellAt(db.state.cells, q), CellAt(db.state.cells, slot), columns);
      AgainPair(c, CellAt(db.state.cells, q), id, data, columns);
    }
    if KeyNotReused(db, Again(id, slot, data), columns) {
      OthersStayApart(db, next, slot, columns);
    }
  }

  lemma OthersStayApart(db: Db, next: Db, slot: nat, columns: seq<nat>)
    requires UniqueInv(db, columns) && slot in db.own && next == db.(state := next.state) && Inv(next.state)
    requires slot in next.state.cells && next.state.cells == db.state.cells[slot := next.state.cells[slot]]
    requires HasNodes(db.index, next.state.cells[slot], slot, columns)
    requires forall q :: q in db.own && q != slot ==>
      && KeysApart(CellAt(next.state.cells, slot), CellAt(next.state.cells, q), columns)
      && KeysApart(CellAt(next.state.cells, q), CellAt(next.state.cells, slot), columns)
    ensures UniqueInv(next, columns)
  {
    forall p | p in db.own ensures HasNodes(next.index, CellAt(next.state.cells, p), p, columns) {
      assert HasNodes(db.index, CellAt(db.state.cells, p), p, columns);
    }
    forall p, q | p in db.own && q in db.own && p != q ensures KeysApart(CellAt(next.state.cells, p), CellAt(next.state.cells, q), columns) {
      assert KeysApart(CellAt(db.state.cells, p), CellAt(db.state.cells, q), columns);
    }
  }

  lemma KeysOnlyKeepsUnique(db: Db, id: nat, slots: seq<nat>, values: seq<Option<Tuple>>, columns: seq<nat>)
    requires UniqueInv(db, columns)
    ensures UniqueInv(Next(db, KeysOnly(id, slots, values), columns), columns)
  {
    var next := Next(db, KeysOnly(id, slots, values), columns);
    forall p | p in db.own ensures HasNodes(next.index, CellAt(db.state.cells, p), p, columns) {
      assert HasNodes(db.index, CellAt(db.state.cells, p), p, columns);
    }
  }

  /** Every step keeps the keys apart, but for the one that takes no look at who has the key now. */
  lemma NextKeepsUnique(db: Db, step: Step, columns: seq<nat>)
    requires UniqueInv(db, columns) && KeyNotReused(db, step, columns)
    ensures UniqueInv(Next(db, step, columns), columns)
  {
    match step
    case Plain(event) => if !Writes(event) && Enabled(db.state, event) { PlainKeepsUnique(db, event, columns); }
    case Keyed(id, slots, values) => KeyedKeepsUnique(db, id, slots, values, columns);
    case Unkeyed(id, slots, values) => UnkeyedKeepsUnique(db, id, slots, values, columns);
    case Foreign(id, slots, values) => ForeignKeepsUnique(db, id, slots, values, columns);
    case KeysOnly(id, slots, values) => KeysOnlyKeepsUnique(db, id, slots, values, columns);
    case Again(id, slot, data) =>
      if WritesAgain(db, id, slot, data, columns) { AgainKeepsUniqueExactly(db, id, slot, data, columns); }
  }

  /** No step of the run has written a deleted row again whose key somebody had taken. */
  ghost predicate KeysNeverReused(steps: seq<Step>, columns: seq<nat>) {
    steps == [] ||
      (KeysNeverReused(steps[..|steps| - 1], columns)
       && KeyNotReused(RunSteps(steps[..|steps| - 1], columns), steps[|steps| - 1], columns))
  }

  lemma {:induction false} StepsKeepUnique(steps: seq<Step>, columns: seq<nat>)
    requires KeysNeverReused(steps, columns)
    ensures UniqueInv(RunSteps(steps, columns), columns)
  {
    if steps == [] {
      RunKeepsInv<nat, Tuple>([]);
      assert Run<nat, Tuple>([]) == Init();
    } else {
      StepsKeepUnique(steps[..|steps| - 1], columns);
      NextKeepsUnique(RunSteps(steps[..|steps| - 1], columns), steps[|steps| - 1], columns);
    }
  }

  ghost predicate UniqueThroughout(steps: seq<Step>, columns: seq<nat>) {
    UniqueInv(RunSteps(steps, columns), columns) && (steps == [] || UniqueThroughout(steps[..|steps| - 1], columns))
  }

  /** The keys stay apart throughout a run exactly when no step of it revives a key that somebody has taken. */
  lemma {:induction false} UniqueExactly(steps: seq<Step>, columns: seq<nat>)
    ensures UniqueThroughout(steps, columns) <==> KeysNeverReused(steps, columns)
  {
    if steps == [] {
      StepsKeepUnique(steps, columns);
    } else {
      var before, e := steps[..|steps| - 1], steps[|steps| - 1];
      UniqueExactly(before, columns);
      if KeysNeverReused(before, columns) {
        StepsKeepUnique(before, columns);
        var db := RunSteps(before, columns);
        if KeyNotReused(db, e, columns) {
          NextKeepsUnique(db, e, columns);
        } else {
          AgainKeepsUniqueExactly(db, e.id, e.slot, e.data, columns);
        }
      }
    }
  }

  /** UniqueInv, closed. */
  ghost predicate Unique(db: Db, columns: seq<nat>, n: nat := CLOSED)
    decreases |columns|, n
  {
    if n == 0 then UniqueInv(db, columns) else Unique(db, columns, n - 1)
  }

  lemma {:induction false} OpenUnique(db: Db, columns: seq<nat>, n: nat := CLOSED)
    ensures Unique(db, columns, n) <==> UniqueInv(db, columns)
    decreases n
  {
    if n > 0 { OpenUnique(db, columns, n - 1); }
  }

  lemma StaysUnique(db: Db, step: Step, columns: seq<nat>)
    requires Unique(db, columns) && KeyNotReused(db, step, columns)
    ensures Unique(Next(db, step, columns), columns)
  {
    OpenUnique(db, columns);
    NextKeepsUnique(db, step, columns);
    OpenUnique(Next(db, step, columns), columns);
  }

  /** A table without rows. */
  lemma NothingIsUnique(s: State<nat, Tuple>, index: set<IndexEntry>, columns: seq<nat>)
    requires Inv(s)
    ensures Unique(Db(s, index, {}), columns)
  {
    OpenUnique(Db(s, index, {}), columns);
  }

  lemma UniqueRows(db: Db, columns: seq<nat>, p: nat, q: nat)
    requires Unique(db, columns) && p in db.own && q in db.own && p != q
    ensures var cells := db.state.cells;
      && p in cells && q in cells
      && Apart(KeyOf(cells[p].cur, columns), KeyOf(cells[q].cur, columns))
      && Apart(KeyOf(CommittedValue(cells[p]), columns), KeyOf(CommittedValue(cells[q]), columns))
  {
    OpenUnique(db, columns);
    assert KeysApart(CellAt(db.state.cells, p), CellAt(db.state.cells, q), columns);
  }

  /** In no state that such a run reaches do two live rows of the table, or two committed ones, have the same key. */
  lemma KeysAreUnique(steps: seq<Step>, columns: seq<nat>, p: nat, q: nat)
    requires KeysNeverReused(steps, columns)
    requires p in RunSteps(steps, columns).own && q in RunSteps(steps, columns).own && p != q
    ensures var cells := RunSteps(steps, columns).state.cells;
      && p in cells && q in cells
      && (KeyOf(cells[p].cur, columns).Some? ==> KeyOf(cells[p].cur, columns) != KeyOf(cells[q].cur, columns))
      && (KeyOf(CommittedValue(cells[p]), columns).Some? ==>
            KeyOf(CommittedValue(cells[p]), columns) != KeyOf(CommittedValue(cells[q]), columns))
  {
    StepsKeepUnique(steps, columns);
    var cells := RunSteps(steps, columns).state.cells;
    assert KeysApart(CellAt(cells, p), CellAt(cells, q), columns);
  }
}
