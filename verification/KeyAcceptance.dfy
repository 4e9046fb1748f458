/** When a key gets into an index, in terms of the rows of the table and of the numbers in them. */
module KeyAcceptance {
  import opened Versions
  import opened Mvcc
  import opened Snapshot
  import opened Reference
  import opened TableStorage
  import opened Engine
  import opened Uniqueness
  import opened IndexTree
  import opened UniqueIndex
  import opened UniqueTable
  import DataTable
  import Refusals

  /** The row is there and holds the key. */
  ghost predicate HasKey(v: Option<Tuple>, key: seq<int>, columns: seq<nat>)
    requires |key| == |columns|
  {
    v.Some? && forall c :: 0 <= c < |columns| ==> columns[c] < |v.value| && v.value[columns[c]] == key[c]
  }

  /** One of the key columns of the row is NULL, the smallest number of 32 bits, or missing. */
  ghost predicate HasNull(row: Tuple, columns: seq<nat>) {
    exists c :: 0 <= c < |columns| && (|row| <= columns[c] || row[columns[c]] == -2147483648)
  }

  ghost function PlainKey(row: Tuple, columns: seq<nat>): (key: seq<int>)
    requires !HasNull(row, columns)
    ensures |key| == |columns| && HasKey(Some(row), key, columns) && -2147483648 !in key
  {
    seq(|columns|, c requires 0 <= c < |columns| => row[columns[c]])
  }

  /** A version that the reader does not see past: neither it nor a newer one is the reader's own, or was committed before it
    began. */
  ghost predicate Hidden(c: Cell<Tuple>, r: Reader, i: nat) {
    i < |c.undo| && forall j :: 0 <= j <= i ==> c.undo[j].stamp != r.id && r.start <= c.undo[j].stamp
  }

  /** Nothing of a row stands in the way of a key: not the row as it is, unless it is about to be overwritten, and no hidden
    version of it. */
  ghost predicate LacksKey(c: Cell<Tuple>, r: Reader, overwritten: bool, key: seq<int>, columns: seq<nat>)
    requires |key| == |columns|
  {
    && (!overwritten ==> !HasKey(c.cur, key, columns))
    && NoneHidden(c, r, key, columns)
  }

  ghost predicate NoneHidden(c: Cell<Tuple>, r: Reader, key: seq<int>, columns: seq<nat>)
    requires |key| == |columns|
  {
    forall i: nat :: Hidden(c, r, i) ==> !HasKey(c.undo[i].before, key, columns)
  }

  /** No row of the table stands in the way of the key. */
  ghost predicate Unused(s: DataTable.Scene, overwritten: set<nat>, key: seq<int>, columns: seq<nat>)
    requires |key| == |columns|
  {
    forall n: nat :: n < |s.rows| ==> LacksKey(CellAt(s.cells, s.rows[n]), s.reader, n in overwritten, key, columns)
  }

  lemma KeyIs(v: Option<Tuple>, key: seq<int>, columns: seq<nat>)
    requires |key| == |columns| && -2147483648 !in key
    ensures KeyOf(v, columns) == Some(key) <==> HasKey(v, key, columns)
  {
    if v.Some? {
      var p := Project(v.value, columns);
      if HasKey(v, key, columns) { assert p == key; }
      if p == key {
        forall c | 0 <= c < |columns| ensures columns[c] < |v.value| && v.value[columns[c]] == key[c] {
          assert key[c] in key && p[c] == key[c];
        }
      }
    }
  }

  lemma KeyOfRow(row: Tuple, columns: seq<nat>)
    ensures KeyOf(Some(row), columns) == if HasNull(row, columns) then None else Some(PlainKey(row, columns))
  {
    var p := Project(row, columns);
    if HasNull(row, columns) {
      var c :| 0 <= c < |columns| && (|row| <= columns[c] || row[columns[c]] == -2147483648);
      assert p[c] == -2147483648;
    } else {
      KeyIs(Some(row), PlainKey(row, columns), columns);
    }
  }

  lemma {:induction false} HiddenHasIs(c: Cell<Tuple>, r: Reader, key: Key, columns: seq<nat>)
    ensures HiddenHas(c, r, key, columns) <==> exists i: nat :: Hidden(c, r, i) && KeyOf(c.undo[i].before, columns) == Some(key)
    decreases |c.undo|
  {
    if c.undo != [] && !Sees(r, c.undo[0].stamp) {
      var p := Pop(c);
      HiddenHasIs(p, r, key, columns);
      forall i: nat | i < |p.undo| ensures Hidden(p, r, i) <==> Hidden(c, r, i + 1) {
        if Hidden(p, r, i) {
          forall j | 0 <= j <= i + 1 ensures c.undo[j].stamp != r.id && r.start <= c.undo[j].stamp {
            if j > 0 { assert c.undo[j] == p.undo[j - 1]; }
          }
        }
        if Hidden(c, r, i + 1) {
          assert forall j :: 0 <= j <= i ==> p.undo[j] == c.undo[j + 1];
        }
      }
      assert Hidden(c, r, 0);
      if i: nat :| Hidden(p, r, i) && KeyOf(p.undo[i].before, columns) == Some(key) {
        assert Hidden(c, r, i + 1) && c.undo[i + 1] == p.undo[i];
      }
      if i: nat :| Hidden(c, r, i) && KeyOf(c.undo[i].before, columns) == Some(key) {
        if i > 0 { assert Hidden(p, r, i - 1) && c.undo[i] == p.undo[i - 1]; }
      }
    }
  }

  lemma BlocksExactly(c: Cell<Tuple>, r: Reader, overwritten: bool, key: seq<int>, columns: seq<nat>)
    requires |key| == |columns| && -2147483648 !in key
    ensures Blocks(c, r, overwritten, key, columns) <==> !LacksKey(c, r, overwritten, key, columns)
  {
    KeyIs(c.cur, key, columns);
    HiddenHasIs(c, r, key, columns);
    forall i: nat | Hidden(c, r, i) { KeyIs(c.undo[i].before, key, columns); }
  }

  /** A key is accepted if and only if no row holds it that is not about to be overwritten, and no version does that the
    transaction does not see past. */
  lemma KeyFreeExactly(index: UniqueIndex, id: nat, overwritten: set<nat>, key: seq<int>)
    requires Good(index) && IsActive(After(index.table.engine.history), id) && |key| == |index.columns| && -2147483648 !in key
    ensures KeyFree(index.table.SceneOf(id), index.tree, overwritten, key, index.columns)
      <==> Unused(index.table.SceneOf(id), overwritten, key, index.columns)
  {
    var s := index.table.SceneOf(id);
    if Unused(s, overwritten, key, index.columns) {
      forall e | e in Entries(index.tree) && e.key == key ensures !NodeBlocks(s, e, overwritten, key, index.columns) {
        assert e.row < |s.rows|;
        BlocksExactly(CellAt(s.cells, s.rows[e.row]), s.reader, e.row in overwritten, key, index.columns);
      }
    }
    if KeyFree(s, index.tree, overwritten, key, index.columns) {
      forall n: nat | n < |s.rows| ensures LacksKey(CellAt(s.cells, s.rows[n]), s.reader, n in overwritten, key, index.columns) {
        BlocksExactly(CellAt(s.cells, s.rows[n]), s.reader, n in overwritten, key, index.columns);
        if Blocks(CellAt(s.cells, s.rows[n]), s.reader, n in overwritten, key, index.columns) {
          BlockingHasNode(index, id, n in overwritten, key, n);
        }
      }
    }
  }

  /** Whatever row stands in the way of a key has a node with it. */
  lemma BlockingHasNode(index: UniqueIndex, id: nat, overwritten: bool, key: seq<int>, n: nat)
    requires Good(index) && IsActive(After(index.table.engine.history), id) && n < |DataTable.Rows(index.table.chunks)|
    requires var s := index.table.SceneOf(id); Blocks(CellAt(s.cells, s.rows[n]), s.reader, overwritten, key, index.columns)
    ensures IndexEntry(key, n) in Entries(index.tree)
  {
    var s, db := index.table.SceneOf(id), StateOf(index);
    var slot := s.rows[n];
    OpenUnique(db, index.columns);
    DataTable.SlotsListed(index.table.engine.storage.tableOf, index.table.table);
    assert slot in db.own && HasNodes(db.index, CellAt(s.cells, slot), slot, index.columns);
    HiddenHasIs(CellAt(s.cells, slot), s.reader, key, index.columns);
    var e :| e in Entries(index.tree) && e.row < |s.rows| && IndexEntry(key, slot) == IndexEntry(e.key, s.rows[e.row]);
    SameRow(s.rows, e.row, n);
  }

  /** The key of a row is accepted: without a NULL if it is unused, and with one if the index allows that. */
  ghost predicate RowAccepted(s: DataTable.Scene, overwritten: set<nat>, row: Tuple, columns: seq<nat>, allowNulls: bool) {
    if HasNull(row, columns) then allowNulls else Unused(s, overwritten, PlainKey(row, columns), columns)
  }

  lemma AcceptableExactly(index: UniqueIndex, id: nat, overwritten: set<nat>, values: seq<Option<Tuple>>)
    requires Good(index) && IsActive(After(index.table.engine.history), id) && forall i :: 0 <= i < |values| ==> values[i].Some?
    ensures Acceptable(index.table.SceneOf(id), index.tree, overwritten, KeysOf(values, index.columns), index.columns, index.allowNulls)
      <==> forall i :: 0 <= i < |values| ==>
             RowAccepted(index.table.SceneOf(id), overwritten, values[i].value, index.columns, index.allowNulls)
  {
    var s, keys := index.table.SceneOf(id), KeysOf(values, index.columns);
    forall i | 0 <= i < |values|
      ensures KeyAcceptable(s, index.tree, overwritten, keys[i], index.columns, index.allowNulls)
        <==> RowAccepted(s, overwritten, values[i].value, index.columns, index.allowNulls)
    {
      KeyOfRow(values[i].value, index.columns);
      if !HasNull(values[i].value, index.columns) { KeyFreeExactly(index, id, overwritten, PlainKey(values[i].value, index.columns)); }
    }
  }

  /** New rows get in if and only if each of their keys is accepted. */
  lemma AppendAcceptedExactly(index: UniqueIndex, id: nat, rows: seq<Tuple>)
    requires Good(index) && IsActive(After(index.table.engine.history), id)
    ensures Acceptable(index.table.SceneOf(id), index.tree, {}, KeysOf(Somes(rows), index.columns), index.columns, index.allowNulls)
      <==> forall i :: 0 <= i < |rows| ==> RowAccepted(index.table.SceneOf(id), {}, rows[i], index.columns, index.allowNulls)
  {
    AcceptableExactly(index, id, {}, Somes(rows));
  }

  /** An update is no violation if and only if the copied keys differ and each new key is accepted. */
  lemma UpdateAcceptedExactly(index: UniqueIndex, id: nat, numbers: seq<nat>, values: seq<Option<Tuple>>, copies: seq<Key>)
    requires Good(index) && IsActive(After(index.table.engine.history), id) && forall i :: 0 <= i < |values| ==> values[i].Some?
    ensures UpdateAccepted(index, id, numbers, values, copies)
      <==> AllDistinct(copies) && forall i :: 0 <= i < |values| ==>
             RowAccepted(index.table.SceneOf(id), (set j | 0 <= j < |numbers| :: numbers[j]), values[i].value, index.columns, index.allowNulls)
  {
    AcceptableExactly(index, id, NumberSet(numbers), values);
  }

  /** Two rows of a table never have the same numbers in all key columns, unless one of these is NULL. */
  lemma RowsDiffer(index: UniqueIndex, m: nat, n: nat, row: Tuple, row': Tuple)
    requires Good(index) && m < |DataTable.Rows(index.table.chunks)| && n < |DataTable.Rows(index.table.chunks)| && m != n
    requires var rows, cells := DataTable.Rows(index.table.chunks), After(index.table.engine.history).cells;
      || (CellAt(cells, rows[m]).cur == Some(row) && CellAt(cells, rows[n]).cur == Some(row'))
      || (CommittedValue(CellAt(cells, rows[m])) == Some(row) && CommittedValue(CellAt(cells, rows[n])) == Some(row'))
    requires !HasNull(row, index.columns) && !HasNull(row', index.columns)
    ensures exists c :: c in index.columns && row[c] != row'[c]
  {
    RowsAreUnique(index, m, n);
    KeyOfRow(row, index.columns);
    KeyOfRow(row', index.columns);
    var key, key' := PlainKey(row, index.columns), PlainKey(row', index.columns);
    assert key != key';
    var i :| 0 <= i < |index.columns| && key[i] != key'[i];
    assert index.columns[i] in index.columns;
  }

  // ----- updates that keep the keys -----

  /** Every row keeps its key, and none of the keys has a NULL. */
  ghost predicate SameKeys(s: DataTable.Scene, numbers: seq<nat>, values: seq<Option<Tuple>>, columns: seq<nat>) {
    |values| == |numbers| && forall i :: 0 <= i < |numbers| ==>
      && values[i].Some? && numbers[i] < |s.rows| && !HasNull(values[i].value, columns)
      && HasKey(CellAt(s.cells, s.rows[numbers[i]]).cur, PlainKey(values[i].value, columns), columns)
  }

  lemma OnlyOwnRowHasKey(index: UniqueIndex, id: nat, m: nat, n: nat, key: seq<int>)
    requires Good(index) && IsActive(After(index.table.engine.history), id) && |key| == |index.columns| && -2147483648 !in key
    requires var s := index.table.SceneOf(id); m < |s.rows| && n < |s.rows| && m != n && HasKey(CellAt(s.cells, s.rows[m]).cur, key, index.columns)
    ensures var s := index.table.SceneOf(id); !HasKey(CellAt(s.cells, s.rows[n]).cur, key, index.columns)
  {
    var s := index.table.SceneOf(id);
    RowsAreUnique(index, m, n);
    KeyIs(CellAt(s.cells, s.rows[m]).cur, key, index.columns);
    KeyIs(CellAt(s.cells, s.rows[n]).cur, key, index.columns);
  }

  lemma KeptKeysApart(index: UniqueIndex, id: nat, numbers: seq<nat>, values: seq<Option<Tuple>>, copies: seq<Key>)
    requires Good(index) && IsActive(After(index.table.engine.history), id) && AllDistinct(numbers)
    requires SameKeys(index.table.SceneOf(id), numbers, values, index.columns) && Copied(copies, values, index.columns)
    ensures AllDistinct(copies)
  {
    forall i, j | 0 <= i < j < |copies| ensures copies[i] != copies[j] {
      OnlyOwnRowHasKey(index, id, numbers[i], numbers[j], PlainKey(values[i].value, index.columns));
      KeyOfRow(values[i].value, index.columns);
      KeyOfRow(values[j].value, index.columns);
    }
  }

  /** A key that a row keeps is unused by the others as they stand. */
  lemma KeptKeyUnused(index: UniqueIndex, id: nat, numbers: seq<nat>, values: seq<Option<Tuple>>, overwritten: set<nat>, i: nat)
    requires Good(index) && IsActive(After(index.table.engine.history), id)
    requires SameKeys(index.table.SceneOf(id), numbers, values, index.columns) && i < |values|
    requires forall n :: n in numbers ==> n in overwritten
    ensures var s, key := index.table.SceneOf(id), PlainKey(values[i].value, index.columns);
      Unused(s, overwritten, key, index.columns) <==>
        (forall n: nat :: n < |s.rows| ==> NoneHidden(CellAt(s.cells, s.rows[n]), s.reader, key, index.columns))
  {
    var s, key := index.table.SceneOf(id), PlainKey(values[i].value, index.columns);
    forall n: nat | n < |s.rows| && n !in overwritten ensures !HasKey(CellAt(s.cells, s.rows[n]).cur, key, index.columns) {
      OnlyOwnRowHasKey(index, id, numbers[i], n, key);
    }
    if Unused(s, overwritten, key, index.columns) {
      forall n: nat | n < |s.rows| ensures NoneHidden(CellAt(s.cells, s.rows[n]), s.reader, key, index.columns) {
        assert LacksKey(CellAt(s.cells, s.rows[n]), s.reader, n in overwritten, key, index.columns);
      }
    }
  }

  /** An update that leaves every row its key is no violation if and only if no version of any row that the transaction does
    not see past holds one of the keys. */
  lemma KeptKeysExactly(index: UniqueIndex, id: nat, numbers: seq<nat>, values: seq<Option<Tuple>>, copies: seq<Key>)
    requires Good(index) && IsActive(After(index.table.engine.history), id) && AllDistinct(numbers)
    requires SameKeys(index.table.SceneOf(id), numbers, values, index.columns) && Copied(copies, values, index.columns)
    ensures UpdateAccepted(index, id, numbers, values, copies)
      <==> var s := index.table.SceneOf(id);
           forall i, n: nat :: 0 <= i < |values| && n < |s.rows| ==>
             NoneHidden(CellAt(s.cells, s.rows[n]), s.reader, PlainKey(values[i].value, index.columns), index.columns)
  {
    UpdateAcceptedExactly(index, id, numbers, values, copies);
    KeptKeysApart(index, id, numbers, values, copies);
    forall i | 0 <= i < |values| {
      KeptKeyUnused(index, id, numbers, values, (set j | 0 <= j < |numbers| :: numbers[j]), i);
    }
  }

  /** An update by somebody who sees the newest version of every row, and that leaves the rows their keys, is no violation. */
  method UpdateKeepingKeys(index: UniqueIndex, id: nat, numbers: seq<nat>, columnIds: seq<nat>, updates: seq<seq<int>>, raw: seq<seq<int>>)
      returns (outcome: UpdateOutcome)
    requires Good(index) && IsActive(After(index.table.engine.history), id)
    requires numbers != [] && index.table.DistinctRows(numbers) && BytesOf(raw, updates)
    requires Updatable(After(index.table.engine.history), index.table.SlotsFor(numbers), columnIds, updates, index.columns)
    requires var s := index.table.SceneOf(id);
      && SameKeys(s, numbers, Updated(After(index.table.engine.history), index.table.SlotsFor(numbers), columnIds, updates), index.columns)
      && forall n: nat :: n < |s.rows| ==> !Hidden(CellAt(s.cells, s.rows[n]), s.reader, 0)
    modifies index, index.table.engine`activeTransactions, index.table.engine`history, index.table.engine`stories, index.table.engine.storage
    ensures Good(index) && outcome != Violation
  {
    ghost var s, slots := After(index.table.engine.history), index.table.SlotsFor(numbers);
    ghost var values, copies := Updated(s, slots, columnIds, updates), RawKeys(s, slots, columnIds, raw, index.columns);
    RawKeysAreCopied(s, slots, columnIds, updates, raw, index.columns);
    NothingHidden(index.table.SceneOf(id));
    KeptKeysExactly(index, id, numbers, values, copies);
    var keyed;
    outcome, keyed := UpdateRows(index, id, numbers, columnIds, updates, raw);
  }

  lemma NothingHidden(s: DataTable.Scene)
    requires forall n: nat :: n < |s.rows| ==> !Hidden(CellAt(s.cells, s.rows[n]), s.reader, 0)
    ensures forall n: nat, i: nat :: n < |s.rows| ==> !Hidden(CellAt(s.cells, s.rows[n]), s.reader, i)
  {
    forall n: nat, i: nat | n < |s.rows| { HiddenFromTop(CellAt(s.cells, s.rows[n]), s.reader, i); }
  }

  lemma HiddenFromTop(c: Cell<Tuple>, r: Reader, i: nat)
    ensures Hidden(c, r, i) ==> Hidden(c, r, 0)
  {
  }

  // ----- keys in the way that nobody holds any more -----

  /** Somebody has written a row and committed: for those who began before, the old row is a hidden version. */
  lemma OldRowIsHidden(h: History, first: nat, second: nat, slot: nat, v: Option<Tuple>)
    requires first != second && IsActive(After(h), first) && Enabled(After(h), Commit(second))
    requires slot in After(h).cells && !Conflicts(After(h).cells[slot], second)
    ensures var h' := h + [Write(second, slot, v)] + [Commit(second)];
      && IsActive(After(h'), first) && slot in After(h').cells && Hidden(After(h').cells[slot], ReaderFor(After(h'), first), 0)
      && After(h').cells[slot].cur == v && After(h').cells[slot].undo[0].before == After(h).cells[slot].cur
      && !Uncommitted(After(h').cells[slot].undo[0].stamp)
  {
    var s, h1 := After(h), h + [Write(second, slot, v)];
    AfterInv(h);
    AfterInv(h1);
    AfterWrite(h, second, slot, v);
    AfterCommit(h1, second);
    ReaderStays(After(h1), second, first);
    CommitLeaves(After(h1), second, slot);
    assert s.active[IndexOf(s.active, first)].id == first && s.active[IndexOf(s.active, second)].id == second;
    StampedAndKept(s.cells[slot], second, v, s.clock, LowestStart(CommitStep(After(h1), second).active));
  }

  lemma CommitLeaves(s: State<nat, Tuple>, id: nat, slot: nat)
    requires IsActive(s, id) && slot in s.cells
    ensures var t := CommitStep(s, id);
      slot in t.cells && t.cells[slot] == Purge(Restamp(s.cells[slot], id, s.clock), LowestStart(t.active))
  {
  }

  /** The others do not notice a commit; nothing that they need is below the floor. */
  lemma ReaderStays(s: State<nat, Tuple>, id: nat, other: nat)
    requires Inv(s) && IsActive(s, id) && IsActive(s, other) && id != other
    ensures var t := CommitStep(s, id);
      IsActive(t, other) && ReaderFor(t, other) == ReaderFor(s, other) && LowestStart(t.active) <= ReaderFor(s, other).start < s.clock
  {
    var t, n, i := CommitStep(s, id), IndexOf(s.active, id), IndexOf(s.active, other);
    Refusals.StaysInList(s, id, other);
    WithoutAt(s.active, n);
    LowestStartIsMin(t.active);
    assert s.active[n].id == id && s.active[i].id == other;
    var m := IndexOf(t.active, other);
    assert t.active[m] == s.active[if m < n then m else m + 1];
  }

  lemma StampedAndKept(c: Cell<Tuple>, id: nat, v: Option<Tuple>, commitId: nat, floor: nat)
    requires floor <= commitId
    ensures var d := Purge(Restamp(Overwrite(c, id, v), id, commitId), floor);
      d.cur == v && d.undo != [] && d.undo[0] == Rec(commitId, c.cur)
  {
    assert Restamp(Overwrite(c, id, v), id, commitId).undo[0] == Rec(commitId, c.cur);
  }

  /** A row that can be updated in one column: it is live, nobody else is writing it, and its key has no NULL. */
  ghost predicate Ready(index: UniqueIndex, id: nat, number: nat, row: Tuple)
    reads index, index.table, index.table.engine, index.table.engine.storage
  {
    && Good(index) && IsActive(After(index.table.engine.history), id)
    && number < |DataTable.Rows(index.table.chunks)| && !index.table.Refuses(number) && !HasNull(row, index.columns)
    && var c := CellAt(After(index.table.engine.history).cells, DataTable.Rows(index.table.chunks)[number]);
       c.cur == Some(row) && !Conflicts(c, id)
  }

  lemma ReadyToUpdate(index: UniqueIndex, id: nat, number: nat, row: Tuple, column: nat, value: int)
    requires Ready(index, id, number, row) && column < |row|
    ensures var s, slot := After(index.table.engine.history), DataTable.Rows(index.table.chunks)[number];
      && index.table.DistinctRows([number]) && index.table.SlotsFor([number]) == [slot]
      && BytesOf([[value]], [[value]]) && Updatable(s, [slot], [column], [[value]], index.columns) && Accepted(s.cells, id, [slot]) == 1
      && Updated(s, [slot], [column], [[value]]) == [Some(row[column := value])]
  {
    var s, slot := After(index.table.engine.history), DataTable.Rows(index.table.chunks)[number];
    DataTable.SlotsListed(index.table.engine.storage.tableOf, index.table.table);
    index.table.engine.SlotsShow();
    Refusals.UpdatedOne(s, slot, column, value);
    AcceptedIs(s.cells, id, [slot], 1);
  }

  /** Updates a column that is no key column. */
  method UpdateOther(index: UniqueIndex, id: nat, number: nat, column: nat, value: int, ghost row: Tuple)
    requires Ready(index, id, number, row) && column < |row| && column !in index.columns
    modifies index, index.table.engine`activeTransactions, index.table.engine`history, index.table.engine`stories, index.table.engine.storage
    ensures Good(index)
    ensures index.table.engine.history == old(index.table.engine.history)
      + [Write(id, DataTable.Rows(index.table.chunks)[number], Some(row[column := value]))]
  {
    ghost var h, slot := index.table.engine.history, DataTable.Rows(index.table.chunks)[number];
    ReadyToUpdate(index, id, number, row, column, value);
    var outcome, keyed := UpdateRows(index, id, [number], [column], [[value]], [[value]]);
    assert !keyed && outcome == AllUpdated;
    Refusals.OneEvent(h, id, slot, Some(row[column := value]));
  }

  lemma SameKeyAfter(row: Tuple, column: nat, value: int, keyColumn: nat, columns: seq<nat>)
    requires !HasNull(row, columns) && column < |row| && column !in columns && keyColumn in columns
    ensures keyColumn < |row|
    ensures var row' := row[column := value];
      && !HasNull(row', columns) && row'[keyColumn] == row[keyColumn] && HasKey(Some(row), PlainKey(row', columns), columns)
  {
    var i :| 0 <= i < |columns| && columns[i] == keyColumn;
    assert columns[i] < |row|;
    var row' := row[column := value];
    forall c | 0 <= c < |columns| ensures columns[c] < |row| && row'[columns[c]] == row[columns[c]] && row[columns[c]] != -2147483648 {
      assert columns[c] in columns;
    }
  }

  /** Two transactions are running, one of them updates a row in another column than the key and commits.  The other one sets
    the key column of the same row to the value that it has, and this is a violation: the old row is a version that it does not
    see past, and it has the key. */
  method KeptKeyRefused(index: UniqueIndex, first: nat, second: nat, number: nat, column: nat, value: int, keyColumn: nat, same: int,
                        ghost row: Tuple) returns (outcome: UpdateOutcome)
    requires Ready(index, second, number, row) && first != second && IsActive(After(index.table.engine.history), first)
    requires Enabled(After(index.table.engine.history), Event.Commit(second))
    requires column < |row| && column !in index.columns && keyColumn in index.columns && keyColumn < |row| && row[keyColumn] == same
    modifies index, index.table.engine, index.table.engine.storage
    ensures Good(index) && outcome == Violation
  {
    ghost var h, slot, row' := index.table.engine.history, DataTable.Rows(index.table.chunks)[number], row[column := value];
    index.table.engine.SlotsShow();
    DataTable.SlotsListed(index.table.engine.storage.tableOf, index.table.table);
    OldRowIsHidden(h, first, second, slot, Some(row'));
    StaysRunning(h, second, slot, Some(row'));
    UpdateOther(index, second, number, column, value, row);
    UniqueTable.Commit(index, second);
    SameKeyAfter(row, column, value, keyColumn, index.columns);
    assert Ready(index, first, number, row');
    outcome := UpdateKeyAgain(index, first, number, keyColumn, same, row, row');
  }

  lemma StaysRunning(h: History, id: nat, slot: nat, v: Option<Tuple>)
    requires Enabled(After(h), Commit(id))
    ensures Enabled(After(h + [Write(id, slot, v)]), Commit(id))
  {
    AfterWrite(h, id, slot, v);
  }

  method UpdateKeyAgain(index: UniqueIndex, id: nat, number: nat, keyColumn: nat, same: int, ghost row: Tuple, ghost row': Tuple)
      returns (outcome: UpdateOutcome)
    requires Ready(index, id, number, row') && keyColumn in index.columns && keyColumn < |row'| && row'[keyColumn] == same
    requires HasKey(Some(row), PlainKey(row', index.columns), index.columns)
    requires var s := index.table.SceneOf(id);
      var c := CellAt(s.cells, s.rows[number]);
      Hidden(c, s.reader, 0) && c.undo[0].before == Some(row)
    modifies index, index.table.engine`activeTransactions, index.table.engine`history, index.table.engine`stories, index.table.engine.storage
    ensures Good(index) && outcome == Violation
  {
    ghost var s, slot := After(index.table.engine.history), DataTable.Rows(index.table.chunks)[number];
    ReadyToUpdate(index, id, number, row', keyColumn, same);
    ghost var values, copies := Updated(s, [slot], [keyColumn], [[same]]), RawKeys(s, [slot], [keyColumn], [[same]], index.columns);
    assert row'[keyColumn := same] == row' && values == [Some(row')];
    RawKeysAreCopied(s, [slot], [keyColumn], [[same]], [[same]], index.columns);
    KeptKeysExactly(index, id, [number], values, copies);
    var keyed;
    outcome, keyed := UpdateRows(index, id, [number], [keyColumn], [[same]], [[same]]);
  }
}
