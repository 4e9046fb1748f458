/** When the null mask of a row that a scan gives out is right.

  A row of the base table is appended value by value, which marks every NULL; an old version is copied byte by byte, and
  its NULLs go out as plain numbers. */
module NullMasks {
  import opened Versions
  import opened Mvcc
  import opened TableStorage
  import opened Engine
  import opened DataTable
  import opened RowIdentifiers

  /** Every row that is given out has exactly its NULLs marked. */
  ghost predicate RightNulls(s: Scene) {
    forall number: nat :: SeenAt(s, number) ==> NullsMarked(s, number)
  }

  ghost predicate NullsMarked(s: Scene, number: nat)
    requires SeenAt(s, number)
  {
    var c := CellAtRow(s, number);
    Given(c, s.reader, number, Visible(c, s.reader).value).nulls == Nulls(Visible(c, s.reader).value)
  }

  ghost function CellAtRow(s: Scene, number: nat): Cell<Tuple>
    requires number < |s.rows|
  {
    CellAt(s.cells, s.rows[number])
  }

  lemma UnmarkedExactly(row: Tuple)
    ensures NoNulls(|row|) == Nulls(row) <==> NULL_VALUE !in row
  {
    if NULL_VALUE in row {
      var i :| 0 <= i < |row| && row[i] == NULL_VALUE;
      assert Nulls(row)[i] && !NoNulls(|row|)[i];
    }
  }

  /** All null masks are right exactly if no row that is read from an old version holds a NULL. */
  lemma RightNullsExactly(s: Scene)
    ensures RightNulls(s)
      <==> forall number: nat :: SeenInOldVersion(s, number) ==> NULL_VALUE !in Visible(CellAtRow(s, number), s.reader).value
  {
    forall number: nat | SeenAt(s, number)
      ensures NullsMarked(s, number)
        <==> (SeenInOldVersion(s, number) ==> NULL_VALUE !in Visible(CellAtRow(s, number), s.reader).value)
    {
      UnmarkedExactly(Visible(CellAtRow(s, number), s.reader).value);
    }
    if RightNulls(s) {
      forall number: nat | SeenInOldVersion(s, number) ensures NULL_VALUE !in Visible(CellAtRow(s, number), s.reader).value {
        assert SeenAt(s, number) && NullsMarked(s, number);
      }
    }
  }

  /** A row that holds a NULL goes out without it, because somebody else is updating the row. */
  method LostNull() returns (found: seq<Found>)
    ensures Found(0, [NULL_VALUE], [false]) in multiset(found)
  {
    found := ReadWhileUpdated(NULL_VALUE, 1, 0, true);
    assert NoNulls(1) == [false];
  }

  // ----- what a scan gives out, in numbers -----

  /** The reader reads the newest version of the row: nobody has overwritten it, or somebody that the reader sees has. */
  ghost predicate ReadsNewest(c: Cell<Tuple>, r: Reader) {
    c.undo == [] || c.undo[0].stamp == r.id || c.undo[0].stamp < r.start
  }

  /** The mask marks the smallest numbers of 32 bits, which stand for NULL, and no others. */
  ghost predicate MarksNulls(nulls: seq<bool>, row: Tuple) {
    |nulls| == |row| && forall i :: 0 <= i < |row| ==> (nulls[i] <==> row[i] == -2147483648)
  }

  /** What is given out for a row: the newest version with its number and its NULLs marked, or an old version with its place
    in its chunk of 10240 rows and nothing marked. */
  ghost predicate GivenFor(s: Scene, number: nat, f: Found) {
    && number < |s.rows| && Visible(CellAtRow(s, number), s.reader) == Some(f.row)
    && if ReadsNewest(CellAtRow(s, number), s.reader)
       then f.rowId == number && MarksNulls(f.nulls, f.row)
       else f.rowId == number % 10240 && |f.nulls| == |f.row| && true !in f.nulls
  }

  lemma GivenIs(s: Scene, number: nat, f: Found)
    ensures f in EmissionAt(s, number) <==> GivenFor(s, number, f)
  {
    if number < |s.rows| && Visible(CellAtRow(s, number), s.reader) == Some(f.row) {
      var g := Given(CellAtRow(s, number), s.reader, number, f.row);
      if GivenFor(s, number, f) {
        forall i | 0 <= i < |f.row| ensures f.nulls[i] == g.nulls[i] {
          if f.nulls[i] { assert true in f.nulls; }
        }
        assert f.nulls == g.nulls;
      }
    }
  }

  lemma {:induction false} EmissionsHave(s: Scene, numbers: seq<nat>, f: Found)
    ensures f in Emissions(s, numbers) <==> exists i :: 0 <= i < |numbers| && GivenFor(s, numbers[i], f)
  {
    if numbers != [] {
      var n := |numbers| - 1;
      EmissionsHave(s, numbers[..n], f);
      GivenIs(s, numbers[n], f);
      if i :| 0 <= i < |numbers| && GivenFor(s, numbers[i], f) && i < n { assert GivenFor(s, numbers[..n][i], f); }
    }
  }

  /** A scan gives out exactly that. */
  method ScanInNumbers(t: DataTable, id: nat) returns (all: seq<Found>)
    requires t.Valid() && IsActive(After(t.engine.history), id)
    ensures forall f :: f in all <==> exists number: nat :: GivenFor(t.SceneOf(id), number, f)
  {
    all := t.ScanAll(id);
    ghost var s := t.SceneOf(id);
    EmittedIs(s, Range(0, |s.rows|));
    forall f ensures f in all <==> exists number: nat :: GivenFor(s, number, f) {
      EmissionsHave(s, Range(0, |s.rows|), f);
      assert f in all <==> f in multiset(all);
      if number: nat :| GivenFor(s, number, f) { assert Range(0, |s.rows|)[number] == number; }
    }
  }
}
