/** A run in which two rows of a table get the same key.

  A row is inserted and committed, and two transactions start.  The second deletes the row, inserts another one with the
  same key, and commits; the index lets the key through, since the row is gone.  The first still sees the deleted row, and
  deletes it again: the undo record brings its key back. */
module KeyReuse {
  import opened Versions
  import opened Mvcc
  import opened TableStorage
  import opened Uniqueness
  import opened Atomicity

  const FIRST: nat := TRANSACTION_ID_START
  const COLUMNS: seq<nat> := [0]

  function Data(value: int): Tuple { [value] }

  function KeyHistory(value: int): seq<Step> {
    var data := Some(Data(value));
    [Plain(Begin), Keyed(FIRST, [0], [data]), Plain(Commit(FIRST)), Plain(Begin), Plain(Begin),
     Unkeyed(FIRST + 2, [0], [None]), Keyed(FIRST + 2, [1], [data]), Plain(Commit(FIRST + 2)), Again(FIRST + 1, 0, Data(value))]
  }

  lemma KeyOfData(value: int)
    requires value != NULL_VALUE
    ensures KeyOf(Some(Data(value)), COLUMNS) == Some([value])
  {
    assert Project(Data(value), COLUMNS) == [value];
  }

  lemma NextDb(steps: seq<Step>, n: nat)
    requires n < |steps|
    ensures RunSteps(steps[..n + 1], COLUMNS) == Next(RunSteps(steps[..n], COLUMNS), steps[n], COLUMNS)
  {
    assert steps[..n + 1][..n] == steps[..n];
  }

  /** One write of one row. */
  lemma OneWrite(s: State<nat, Tuple>, id: nat, slot: nat, v: Option<Tuple>)
    ensures WriteAll(s, id, [slot], [v]) == WriteStep(s, id, slot, v)
  {
    assert [slot][..0] == [] && [v][..0] == [];
  }

  lemma OneNewEntry(slot: nat, value: int)
    requires value != NULL_VALUE
    ensures NewEntries([slot], [Some(Data(value))], COLUMNS) == {IndexEntry([value], slot)}
  {
    KeyOfData(value);
    assert IndexEntry([value], slot) in NewEntries([slot], [Some(Data(value))], COLUMNS) by {
      assert [Some(Data(value))][0] == Some(Data(value)) && [slot][0] == slot;
    }
  }

  lemma FirstWrite(id: nat, v: Option<Tuple>)
    ensures Overwrite(Cell(None, []), id, v) == Cell(v, [Rec(id, None)])
  {
    var rec: Rec<Tuple> := Rec(id, None);
    assert [rec] + [] == [rec];
  }

  /** A keyed write of one row that nothing stands in the way of. */
  lemma KeyedWrite(db: Db, id: nat, slot: nat, value: int)
    requires value != NULL_VALUE && IsActive(db.state, id) && slot !in db.state.cells
    requires Free(db, ReaderFor(db.state, id), [slot], [value], COLUMNS)
    ensures Next(db, Keyed(id, [slot], [Some(Data(value))]), COLUMNS)
         == Db(WriteStep(db.state, id, slot, Some(Data(value))), db.index + {IndexEntry([value], slot)}, db.own + {slot})
  {
    KeyOfData(value);
    OneWrite(db.state, id, slot, Some(Data(value)));
    OneNewEntry(slot, value);
    assert SlotSet([slot]) == {slot};
  }

  // ----- the states on the way -----

  function Entry(value: int, slot: nat): IndexEntry { IndexEntry([value], slot) }

  function Begun(): Db {
    Db(State(1, FIRST + 1, 1, [Active(FIRST, 0, MAXIMUM_QUERY_ID)], [], [], map[]), {}, {})
  }

  function Filled(value: int): Db {
    Db(Begun().state.(cells := map[0 := Cell(Some(Data(value)), [Rec(FIRST, None)])]), {Entry(value, 0)}, {0})
  }

  function Kept(value: int): Db {
    Db(State(2, FIRST + 1, 1, [], [], [], map[0 := Cell(Some(Data(value)), [])]), {Entry(value, 0)}, {0})
  }

  function Opened(value: int): Db {
    Kept(value).(state := State(4, FIRST + 3, 1, Pair(), [], [], Kept(value).state.cells))
  }

  function Erased(value: int): Db {
    Opened(value).(state := Opened(value).state.(cells := map[0 := Cell(None, [Rec(FIRST + 2, Some(Data(value)))])]))
  }

  function Taken(value: int): Db {
    Db(Erased(value).state.(cells := map[0 := Cell(None, [Rec(FIRST + 2, Some(Data(value)))]), 1 := Cell(Some(Data(value)), [Rec(FIRST + 2, None)])]),
       {Entry(value, 0), Entry(value, 1)}, {0, 1})
  }

  function Settled(value: int): Db {
    Taken(value).(state :=
      State(5, FIRST + 3, 1, [Pair()[0]], [Committed(FIRST + 2, 4)], [],
            map[0 := Cell(None, [Rec(4, Some(Data(value)))]), 1 := Cell(Some(Data(value)), [Rec(4, None)])]))
  }

  // ----- one step after the other -----

  lemma RowFilled(value: int)
    requires value != NULL_VALUE
    ensures Next(Begun(), Keyed(FIRST, [0], [Some(Data(value))]), COLUMNS) == Filled(value)
  {
    KeyedWrite(Begun(), FIRST, 0, value);
    FirstWrite(FIRST, Some(Data(value)));
  }

  lemma RowKept(value: int)
    ensures Next(Filled(value), Plain(Commit(FIRST)), COLUMNS) == Kept(value)
  {
    var s, c, done := Filled(value).state, Cell(Some(Data(value)), [Rec(FIRST, None)]), Cell(Some(Data(value)), [Rec(1, None)]);
    assert Restamp(c, FIRST, 1) == done;
    assert MapRestamp(s.cells, FIRST, 1) == map[0 := done];
    assert Without(s.active, 0) == [];
    assert MapPurge(map[0 := done], FIRST) == Kept(value).state.cells;
  }

  lemma BothBegin(value: int)
    ensures Next(Next(Kept(value), Plain(Begin), COLUMNS), Plain(Begin), COLUMNS) == Opened(value)
  {
  }

  lemma RowErased(value: int)
    ensures Next(Opened(value), Unkeyed(FIRST + 2, [0], [None]), COLUMNS) == Erased(value)
  {
    var s := Opened(value).state;
    OneWrite(s, FIRST + 2, 0, None);
    NewestWrites(s, Pair()[1], None);
    SecondOfPair();
  }

  lemma SecondOfPair()
    ensures IndexOf(Pair(), FIRST + 2) == 1 && Pair()[1].AsReader() == Reader(FIRST + 2, 3)
  {
    assert Pair()[0].id == FIRST + 1 && Pair()[1..][0].id == FIRST + 2;
  }

  /** The key of a row that the transaction itself has deleted is free. */
  lemma KeyTaken(value: int)
    requires value != NULL_VALUE
    ensures Next(Erased(value), Keyed(FIRST + 2, [1], [Some(Data(value))]), COLUMNS) == Taken(value)
  {
    var db := Erased(value);
    SecondOfPair();
    assert ReaderFor(db.state, FIRST + 2) == Reader(FIRST + 2, 3);
    KeyedWrite(db, FIRST + 2, 1, value);
    FirstWrite(FIRST + 2, Some(Data(value)));
  }

  lemma SecondCommits(value: int)
    ensures Next(Taken(value), Plain(Commit(FIRST + 2)), COLUMNS) == Settled(value)
  {
    var s := Taken(value).state;
    var gone, back := Cell(None, [Rec(4, Some(Data(value)))]), Cell(Some(Data(value)), [Rec(4, None)]);
    assert Restamp(Cell(None, [Rec(FIRST + 2, Some(Data(value)))]), FIRST + 2, 4) == gone;
    assert Restamp(Cell(Some(Data(value)), [Rec(FIRST + 2, None)]), FIRST + 2, 4) == back;
    assert MapRestamp(s.cells, FIRST + 2, 4) == map[0 := gone, 1 := back];
    SecondOfPair();
    assert Without(Pair(), 1) == [Pair()[0]] && LowestStart([Pair()[0]]) == 2;
    KeptAbove(gone, 2);
    KeptAbove(back, 2);
    assert MapPurge(map[0 := gone, 1 := back], 2) == map[0 := gone, 1 := back];
    assert [] + [Committed(FIRST + 2, 4)] == [Committed(FIRST + 2, 4)];
  }

  lemma KeptAbove(c: Cell<Tuple>, floor: nat)
    requires |c.undo| == 1 && floor <= c.undo[0].stamp
    ensures Purge(c, floor) == c
  {
    assert Keep(c.undo[1..], floor) == [];
  }

  /** The run reaches a state after its first n steps. */
  ghost predicate Reaches(value: int, n: nat, db: Db)
    requires n <= |KeyHistory(value)|
  {
    RunSteps(KeyHistory(value)[..n], COLUMNS) == db
  }

  lemma ReachesNext(value: int, n: nat, db: Db, next: Db)
    requires n < |KeyHistory(value)| && Reaches(value, n, db) && Next(db, KeyHistory(value)[n], COLUMNS) == next
    ensures Reaches(value, n + 1, next)
  {
    NextDb(KeyHistory(value), n);
  }

  lemma ReachesFilled(value: int)
    requires value != NULL_VALUE
    ensures Reaches(value, 2, Filled(value))
  {
    assert Reaches(value, 0, Db(Init(), {}, {}));
    ReachesNext(value, 0, Db(Init(), {}, {}), Begun());
    RowFilled(value);
    ReachesNext(value, 1, Begun(), Filled(value));
  }

  lemma ReachesKept(value: int)
    requires value != NULL_VALUE
    ensures Reaches(value, 3, Kept(value))
  {
    ReachesFilled(value);
    RowKept(value);
    ReachesNext(value, 2, Filled(value), Kept(value));
  }

  lemma ReachesOpened(value: int)
    requires value != NULL_VALUE
    ensures Reaches(value, 5, Opened(value))
  {
    ReachesKept(value);
    BothBegin(value);
    var half := Next(Kept(value), Plain(Begin), COLUMNS);
    BeginsTwice(value, half);
  }

  lemma BeginsTwice(value: int, half: Db)
    requires Reaches(value, 3, Kept(value)) && Next(Kept(value), Plain(Begin), COLUMNS) == half
    requires Next(half, Plain(Begin), COLUMNS) == Opened(value)
    ensures Reaches(value, 5, Opened(value))
  {
    ReachesNext(value, 3, Kept(value), half);
    ReachesNext(value, 4, half, Opened(value));
  }

  lemma RunSettles(value: int)
    requires value != NULL_VALUE
    ensures Reaches(value, 8, Settled(value))
  {
    ReachesOpened(value);
    RowErased(value);
    ReachesNext(value, 5, Opened(value), Erased(value));
    KeyTaken(value);
    ReachesNext(value, 6, Erased(value), Taken(value));
    SecondCommits(value);
    ReachesNext(value, 7, Taken(value), Settled(value));
  }

  /** At the end both rows of the table have the key, as committed, and somebody has reused the key of a deleted row. */
  lemma KeyIsRevived(value: int)
    requires value != NULL_VALUE
    ensures var cells := RunSteps(KeyHistory(value), COLUMNS).state.cells;
      && 0 in cells && 1 in cells
      && KeyOf(CommittedValue(cells[0]), COLUMNS) == Some([value]) == KeyOf(CommittedValue(cells[1]), COLUMNS)
    ensures !KeysNeverReused(KeyHistory(value), COLUMNS)
  {
    var h, db := KeyHistory(value), Settled(value);
    RunSettles(value);
    NextDb(h, 8);
    assert h[..9] == h && h[..|h| - 1] == h[..8];
    TakenAgain(value);
  }

  lemma TakenAgain(value: int)
    requires value != NULL_VALUE
    ensures var db, e := Settled(value), Again(FIRST + 1, 0, Data(value));
      var cells := Next(db, e, COLUMNS).state.cells;
      && 0 in cells && 1 in cells && !KeyNotReused(db, e, COLUMNS)
      && KeyOf(CommittedValue(cells[0]), COLUMNS) == Some([value]) == KeyOf(CommittedValue(cells[1]), COLUMNS)
  {
    var db := Settled(value);
    KeyOfData(value);
    assert IndexOf(db.state.active, FIRST + 1) == 0 && WritesAgain(db, FIRST + 1, 0, Data(value), COLUMNS);
    TouchedCommitted(db.state.cells[0], Data(value), FIRST + 1, None);
    assert CommittedValue(db.state.cells[1]) == Some(Data(value));
    assert 1 in db.own && !ApartFromAgain(CellAt(db.state.cells, 1), FIRST + 1, KeyOf(Some(Data(value)), COLUMNS), COLUMNS);
  }
}
