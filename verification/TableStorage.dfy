/** Base rows, undo records and the pointer surgery on the chains between them.

  Undo records live in an arena; a pointer to a record is its position there.  Slots number the rows
  of all storage chunks. */
module TableStorage {
  import opened Versions

  type Tuple = seq<int>

  /** The value that stands for NULL in a column. */
  const NULL_VALUE: int := -0x8000_0000

  /** The newest record of a chain knows its slot, every other record knows the next newer one. */
  datatype Link = InChunk(slot: nat) | Newer(rec: nat)

  datatype VersionInformation = VersionInformation(
    link: Link, next: Option<nat>, versionNumber: nat, tupleData: Option<Tuple>)

  /** Facts about records that never change: the slot, and for an insertion the inserted row. */
  datatype Origin = Origin(slot: nat, row: Tuple)

  /** The contents of a chain as undo records. */
  ghost function Undos(records: seq<VersionInformation>, chain: seq<nat>): (u: seq<Rec<Tuple>>)
    requires forall i :: 0 <= i < |chain| ==> chain[i] < |records|
    ensures |u| == |chain|
    ensures forall i :: 0 <= i < |chain| ==> u[i] == Rec(records[chain[i]].versionNumber, records[chain[i]].tupleData)
  {
    seq(|chain|, i requires 0 <= i < |chain| => Rec(records[chain[i]].versionNumber, records[chain[i]].tupleData))
  }

  /** A record in its place: the newest one points to the slot, each other one to its neighbours, and right above an
    insertion record, which is the oldest of its chain, lies the inserted row. */
  ghost predicate InPlace(records: seq<VersionInformation>, origins: seq<Origin>, chain: seq<nat>, slot: nat, base: Option<Tuple>, i: nat)
    requires i < |chain| && forall j :: 0 <= j < |chain| ==> chain[j] < |records|
  {
    var rec := records[chain[i]];
    && chain[i] < |origins| && origins[chain[i]].slot == slot
    && rec.link == (if i == 0 then InChunk(slot) else Newer(chain[i - 1]))
    && rec.next == (if i + 1 < |chain| then Some(chain[i + 1]) else None)
    && (rec.tupleData.None? ==>
          && i == |chain| - 1
          && Some(origins[chain[i]].row) == if i == 0 then base else records[chain[i - 1]].tupleData)
  }

  /** Records are allocated in order, so the further down the chain the smaller the number. */
  ghost predicate Descending(chain: seq<nat>) {
    forall i, j :: 0 <= i < j < |chain| ==> chain[j] < chain[i]
  }

  ghost predicate ChainOk(records: seq<VersionInformation>, origins: seq<Origin>, chain: seq<nat>, slot: nat, base: Option<Tuple>) {
    && (forall i :: 0 <= i < |chain| ==> chain[i] < |records|)
    && Descending(chain)
    && (forall i: nat :: i < |chain| ==> InPlace(records, origins, chain, slot, base, i))
  }

  /** Changes elsewhere in the arena do not matter to a chain. */
  lemma ChainFrame(records: seq<VersionInformation>, records': seq<VersionInformation>, origins: seq<Origin>, origins': seq<Origin>,
                   chain: seq<nat>, slot: nat, base: Option<Tuple>)
    requires ChainOk(records, origins, chain, slot, base)
    requires |origins| == |records| <= |records'| && origins <= origins'
    requires forall r :: 0 <= r < |records| && origins[r].slot == slot ==> records'[r] == records[r]
    ensures ChainOk(records', origins', chain, slot, base)
    ensures Undos(records', chain) == Undos(records, chain)
  {
    forall i: nat | i < |chain|
      ensures records'[chain[i]] == records[chain[i]] && InPlace(records', origins', chain, slot, base, i)
    {
      assert InPlace(records, origins, chain, slot, base, i);
      if i > 0 { assert InPlace(records, origins, chain, slot, base, i - 1); }
    }
  }

  /** No insertion record lies directly under a deleted base row, so any data may lie there. */
  lemma ChainUnderDead(records: seq<VersionInformation>, origins: seq<Origin>, chain: seq<nat>, slot: nat, row: Tuple, base: Option<Tuple>)
    requires ChainOk(records, origins, chain, slot, base) && (base == None || base == Some(row))
    ensures ChainOk(records, origins, chain, slot, Some(row))
  {
    forall i: nat | i < |chain| ensures InPlace(records, origins, chain, slot, Some(row), i) {
      assert InPlace(records, origins, chain, slot, base, i);
    }
  }

  /** Pushing a record that holds the current row onto a chain. */
  lemma ChainPush(records: seq<VersionInformation>, records': seq<VersionInformation>, origins: seq<Origin>, origin: Origin,
                  chain: seq<nat>, slot: nat, row: Tuple, id: nat, base: Option<Tuple>)
    requires ChainOk(records, origins, chain, slot, Some(row)) && origin.slot == slot && |origins| == |records|
    requires |records'| == |records| + 1
    requires records'[|records|] == VersionInformation(InChunk(slot), if chain == [] then None else Some(chain[0]), id, Some(row))
    requires forall r :: 0 <= r < |records| ==>
      records'[r] == if chain != [] && r == chain[0] then records[r].(link := Newer(|records|)) else records[r]
    ensures ChainOk(records', origins + [origin], [|records|] + chain, slot, base)
    ensures Undos(records', [|records|] + chain) == [Rec(id, Some(row))] + Undos(records, chain)
  {
    var c := [|records|] + chain;
    forall i: nat | i < |c| ensures InPlace(records', origins + [origin], c, slot, base, i) {
      if i > 0 { assert InPlace(records, origins, chain, slot, Some(row), i - 1); }
    }
  }

  /** Taking the newest record off a chain gives the base row the value it held. */
  lemma ChainPop(records: seq<VersionInformation>, records': seq<VersionInformation>, origins: seq<Origin>,
                 chain: seq<nat>, slot: nat, base: Option<Tuple>)
    requires ChainOk(records, origins, chain, slot, base) && chain != [] && |records'| == |records|
    requires forall r :: 0 <= r < |records| ==>
      records'[r] == if 1 < |chain| && r == chain[1] then records[r].(link := InChunk(slot)) else records[r]
    ensures ChainOk(records', origins, chain[1..], slot, records[chain[0]].tupleData)
    ensures Undos(records', chain[1..]) == Undos(records, chain)[1..]
  {
    var c := chain[1..];
    forall i: nat | i < |c| ensures InPlace(records', origins, c, slot, records[chain[0]].tupleData, i) {
      assert InPlace(records, origins, chain, slot, base, i + 1);
    }
  }

  lemma PopSlots(records: seq<VersionInformation>, records': seq<VersionInformation>, origins: seq<Origin>,
                 chains: seq<seq<nat>>, bases: seq<Option<Tuple>>, slot: nat)
    requires slot < |chains| == |bases| && |origins| == |records| == |records'| && chains[slot] != []
    requires forall s :: 0 <= s < |chains| ==> ChainOk(records, origins, chains[s], s, bases[s])
    requires chains[slot][0] < |records|
    requires forall r :: 0 <= r < |records| ==>
      records'[r] == if 1 < |chains[slot]| && r == chains[slot][1] then records[r].(link := InChunk(slot)) else records[r]
    ensures ChainOk(records', origins, chains[slot][1..], slot, records[chains[slot][0]].tupleData)
    ensures Undos(records', chains[slot][1..]) == Undos(records, chains[slot])[1..]
    ensures forall s :: 0 <= s < |chains| && s != slot ==>
      ChainOk(records', origins, chains[s], s, bases[s]) && Undos(records', chains[s]) == Undos(records, chains[s])
  {
    ChainPop(records, records', origins, chains[slot], slot, bases[slot]);
    if 1 < |chains[slot]| { assert InPlace(records, origins, chains[slot], slot, bases[slot], 1); }
    forall s | 0 <= s < |chains| && s != slot
      ensures ChainOk(records', origins, chains[s], s, bases[s]) && Undos(records', chains[s]) == Undos(records, chains[s])
    {
      ChainFrame(records, records', origins, origins, chains[s], s, bases[s]);
    }
  }

  function Cut<T>(s: seq<T>, p: nat): (c: seq<T>)
    requires p < |s|
    ensures |c| == |s| - 1
    ensures forall i :: 0 <= i < |c| ==> c[i] == s[if i < p then i else i + 1]
  {
    s[..p] + s[p + 1..]
  }

  /** The arena after the neighbours of the record at position p have been joined. */
  ghost predicate Joined(records: seq<VersionInformation>, records': seq<VersionInformation>, chain: seq<nat>, p: nat)
    requires p < |chain| && forall i :: 0 <= i < |chain| ==> chain[i] < |records|
  {
    && |records'| == |records|
    && forall r :: 0 <= r < |records| ==>
      records'[r] ==
        if 0 < p && r == chain[p - 1] then records[r].(next := records[chain[p]].next)
        else if p + 1 < |chain| && r == chain[p + 1] then records[r].(link := records[chain[p]].link)
        else records[r]
  }

  lemma JoinedInPlace(records: seq<VersionInformation>, records': seq<VersionInformation>, origins: seq<Origin>,
                      chain: seq<nat>, slot: nat, base: Option<Tuple>, p: nat, i: nat)
    requires ChainOk(records, origins, chain, slot, base) && p < |chain| && Joined(records, records', chain, p)
    requires p + 1 < |chain| ==> records[chain[p + 1]].tupleData.Some?
    requires i < |Cut(chain, p)|
    ensures InPlace(records', origins, Cut(chain, p), slot, base, i)
  {
    var j := if i < p then i else i + 1;
    assert InPlace(records, origins, chain, slot, base, p);
    assert InPlace(records, origins, chain, slot, base, j);
    if i == p {
      assert records'[chain[j]].link == records[chain[p]].link;
    } else if i + 1 == p {
      assert records'[chain[j]].next == records[chain[p]].next;
    } else {
      assert records'[chain[j]] == records[chain[j]];
    }
    if 0 < j {
      assert records'[chain[j - 1]].tupleData == records[chain[j - 1]].tupleData;
    }
  }

  lemma OtherSlotsKept(records: seq<VersionInformation>, records': seq<VersionInformation>, origins: seq<Origin>,
                       chain: seq<nat>, slot: nat, base: Option<Tuple>, p: nat)
    requires ChainOk(records, origins, chain, slot, base) && p < |chain| && Joined(records, records', chain, p)
    requires |origins| == |records|
    ensures forall r :: 0 <= r < |records| && origins[r].slot != slot ==> records'[r] == records[r]
  {
    if 0 < p { assert InPlace(records, origins, chain, slot, base, p - 1); }
    if p + 1 < |chain| { assert InPlace(records, origins, chain, slot, base, p + 1); }
  }

  lemma JoinedUndos(records: seq<VersionInformation>, records': seq<VersionInformation>, chain: seq<nat>, p: nat)
    requires p < |chain| && (forall i :: 0 <= i < |chain| ==> chain[i] < |records|) && Joined(records, records', chain, p)
    ensures Undos(records', Cut(chain, p)) == Cut(Undos(records, chain), p)
  {
  }

  lemma CutDescends(chain: seq<nat>, p: nat)
    requires Descending(chain) && p < |chain|
    ensures Descending(Cut(chain, p))
  {
  }

  /** Taking the record at position p out of a chain closes the gap between its neighbours. */
  lemma ChainUnlink(records: seq<VersionInformation>, records': seq<VersionInformation>, origins: seq<Origin>,
                    chain: seq<nat>, slot: nat, base: Option<Tuple>, p: nat)
    requires ChainOk(records, origins, chain, slot, base) && p < |chain| && Joined(records, records', chain, p)
    requires p + 1 < |chain| ==> records[chain[p + 1]].tupleData.Some?
    ensures ChainOk(records', origins, Cut(chain, p), slot, base)
    ensures Undos(records', Cut(chain, p)) == Cut(Undos(records, chain), p)
  {
    var c := Cut(chain, p);
    forall i: nat | i < |c| ensures InPlace(records', origins, c, slot, base, i) {
      JoinedInPlace(records, records', origins, chain, slot, base, p, i);
    }
    CutDescends(chain, p);
    JoinedUndos(records, records', chain, p);
  }

  lemma UnlinkSlots(records: seq<VersionInformation>, records': seq<VersionInformation>, origins: seq<Origin>,
                    chains: seq<seq<nat>>, bases: seq<Option<Tuple>>, slot: nat, p: nat)
    requires slot < |chains| == |bases| && |origins| == |records| && p < |chains[slot]|
    requires forall s :: 0 <= s < |chains| ==> ChainOk(records, origins, chains[s], s, bases[s])
    requires forall i :: 0 <= i < |chains[slot]| ==> chains[slot][i] < |records|
    requires Joined(records, records', chains[slot], p)
    requires p + 1 < |chains[slot]| ==> records[chains[slot][p + 1]].tupleData.Some?
    ensures ChainOk(records', origins, Cut(chains[slot], p), slot, bases[slot])
    ensures Undos(records', Cut(chains[slot], p)) == Cut(Undos(records, chains[slot]), p)
    ensures forall s :: 0 <= s < |chains| && s != slot ==>
      ChainOk(records', origins, chains[s], s, bases[s]) && Undos(records', chains[s]) == Undos(records, chains[s])
  {
    ChainUnlink(records, records', origins, chains[slot], slot, bases[slot], p);
    OtherSlotsKept(records, records', origins, chains[slot], slot, bases[slot], p);
    forall s | 0 <= s < |chains| && s != slot
      ensures ChainOk(records', origins, chains[s], s, bases[s]) && Undos(records', chains[s]) == Undos(records, chains[s])
    {
      ChainFrame(records, records', origins, origins, chains[s], s, bases[s]);
    }
  }

  function Unstamped(v: VersionInformation): VersionInformation { v.(versionNumber := 0) }

  /** Stamping records moves nothing. */
  lemma ChainStamped(records: seq<VersionInformation>, records': seq<VersionInformation>, origins: seq<Origin>,
                     chain: seq<nat>, slot: nat, base: Option<Tuple>)
    requires ChainOk(records, origins, chain, slot, base) && |records'| == |records|
    requires forall r :: 0 <= r < |records| ==> Unstamped(records'[r]) == Unstamped(records[r])
    ensures ChainOk(records', origins, chain, slot, base)
  {
    forall i: nat | i < |chain| ensures InPlace(records', origins, chain, slot, base, i) {
      assert InPlace(records, origins, chain, slot, base, i);
      assert forall j :: 0 <= j < |chain| ==> Unstamped(records'[chain[j]]) == Unstamped(records[chain[j]]);
    }
  }

  /** A row after values have been stored in some of its columns, one after the other. */
  function Assigned(row: Tuple, columnIds: seq<nat>, values: seq<int>): (r: Tuple)
    requires |columnIds| == |values|
    ensures |r| == |row|
  {
    if columnIds == [] then row else
    var n := |columnIds| - 1;
    var r := Assigned(row, columnIds[..n], values[..n]);
    if columnIds[n] < |row| then r[columnIds[n] := values[n]] else r
  }

  /** A column holds the last value stored in it, and otherwise what it held before. */
  lemma {:induction false} AssignedHolds(row: Tuple, columnIds: seq<nat>, values: seq<int>, column: nat)
    requires |columnIds| == |values| && column < |row|
    ensures column !in columnIds ==> Assigned(row, columnIds, values)[column] == row[column]
    ensures forall j :: 0 <= j < |columnIds| && columnIds[j] == column && column !in columnIds[j + 1..] ==>
      Assigned(row, columnIds, values)[column] == values[j]
  {
    if columnIds != [] {
      var n := |columnIds| - 1;
      AssignedHolds(row, columnIds[..n], values[..n], column);
      forall j | 0 <= j < |columnIds| && columnIds[j] == column && column !in columnIds[j + 1..]
        ensures Assigned(row, columnIds, values)[column] == values[j]
      {
        if j < n {
          assert columnIds[n] == columnIds[j + 1..][n - j - 1];
          assert columnIds[..n][j + 1..] <= columnIds[j + 1..];
        }
      }
    }
  }

  /** What an update assigns to its i-th row. */
  function RowValues(updates: seq<seq<int>>, i: nat): (values: seq<int>)
    requires forall j :: 0 <= j < |updates| ==> i < |updates[j]|
    ensures |values| == |updates| && forall j :: 0 <= j < |values| ==> values[j] == updates[j][i]
  {
    seq(|updates|, j requires 0 <= j < |updates| => updates[j][i])
  }

  lemma AssignedOneMore(row: Tuple, columnIds: seq<nat>, updates: seq<seq<int>>, i: nat, j: nat)
    requires j < |columnIds| == |updates| && columnIds[j] < |row|
    requires forall k :: 0 <= k < |updates| ==> i < |updates[k]|
    ensures Assigned(row, columnIds[..j + 1], RowValues(updates, i)[..j + 1])
         == Assigned(row, columnIds[..j], RowValues(updates, i)[..j])[columnIds[j] := updates[j][i]]
  {
    assert columnIds[..j + 1][..j] == columnIds[..j];
    assert RowValues(updates, i)[..j + 1][..j] == RowValues(updates, i)[..j];
  }

  /** The row does not come again later. */
  predicate IsLast(slots: seq<nat>, i: nat)
    requires i < |slots|
  {
    forall k :: i < k < |slots| ==> slots[k] != slots[i]
  }

  /** Where the row of a place comes for the last time. */
  lemma {:induction false} LastExists(slots: seq<nat>, i: nat) returns (k: nat)
    requires i < |slots|
    ensures i <= k < |slots| && slots[k] == slots[i] && IsLast(slots, k)
    decreases |slots| - i
  {
    if IsLast(slots, i) {
      k := i;
    } else {
      var m :| i < m < |slots| && slots[m] == slots[i];
      k := LastExists(slots, m);
    }
  }

  /** Where a row comes for the last time, if it comes at all. */
  function LastPlace(slots: seq<nat>, s: nat): (place: Option<nat>)
    ensures place.Some? ==> place.value < |slots| && slots[place.value] == s && IsLast(slots, place.value)
    ensures place.None? ==> s !in slots
  {
    if slots == [] then None
    else if slots[|slots| - 1] == s then Some(|slots| - 1)
    else LastPlace(slots[..|slots| - 1], s)
  }

  lemma LastPlaceIs(slots: seq<nat>, i: nat)
    requires i < |slots| && IsLast(slots, i)
    ensures LastPlace(slots, slots[i]) == Some(i)
  {
  }

  /** One value of the row is new, the last one given for it, or it is as it was. */
  ghost predicate StoredRow(was: seq<Tuple>, now: seq<Tuple>, slots: seq<nat>, column: nat, values: seq<int>, s: nat)
    requires |slots| <= |values| && s < |was| == |now|
  {
    match LastPlace(slots, s)
    case None => now[s] == was[s]
    case Some(k) => column < |was[s]| && now[s] == was[s][column := values[k]]
  }

  ghost predicate StoredRows(was: seq<Tuple>, now: seq<Tuple>, slots: seq<nat>, column: nat, values: seq<int>)
    requires |slots| <= |values|
  {
    |now| == |was| && forall s :: 0 <= s < |was| ==> StoredRow(was, now, slots, column, values, s)
  }

  lemma StoredNext(was: seq<Tuple>, now: seq<Tuple>, slots: seq<nat>, column: nat, values: seq<int>, i: nat)
    requires i < |slots| == |values| && StoredRows(was, now, slots[..i], column, values)
    requires slots[i] < |was| && column < |was[slots[i]]|
    ensures column < |now[slots[i]]|
    ensures StoredRows(was, now[slots[i] := now[slots[i]][column := values[i]]], slots[..i + 1], column, values)
  {
    assert StoredRow(was, now, slots[..i], column, values, slots[i]);
    var now' := now[slots[i] := now[slots[i]][column := values[i]]];
    var a, b := slots[..i], slots[..i + 1];
    forall s | 0 <= s < |was| ensures StoredRow(was, now', b, column, values, s) {
      assert StoredRow(was, now, a, column, values, s);
      assert b[..i] == a;
    }
  }

  ghost predicate LinkedIn(origins: seq<Origin>, chains: seq<seq<nat>>, r: nat) {
    r < |origins| && origins[r].slot < |chains| && r in chains[origins[r].slot]
  }

  class Storage {
    var deleted: seq<bool>
    var columns: seq<Tuple>
    var versionPointers: seq<Option<nat>>
    var records: seq<VersionInformation>
    /** The table that a slot belongs to. */
    var tableOf: seq<nat>

    /** The records of each slot, newest first. */
    ghost var chains: seq<seq<nat>>
    ghost var origins: seq<Origin>

    ghost predicate Shaped()
      reads this
    {
      && |deleted| == |columns| == |versionPointers| == |chains| == |tableOf|
      && |origins| == |records|
    }

    ghost function Base(s: nat): Option<Tuple>
      requires s < |deleted| && s < |columns|
      reads this
    {
      if deleted[s] then None else Some(columns[s])
    }

    ghost function Bases(): (b: seq<Option<Tuple>>)
      requires Shaped()
      reads this
      ensures |b| == |chains| && forall s :: 0 <= s < |b| ==> b[s] == Base(s)
    {
      var d, c := deleted, columns;
      seq(|d|, s requires 0 <= s < |d| == |c| => if d[s] then None else Some(c[s]))
    }

    ghost predicate Valid()
      reads this
    {
      && Shaped()
      && (forall s :: 0 <= s < |chains| ==> ChainOk(records, origins, chains[s], s, Base(s)))
      && (forall s :: 0 <= s < |chains| ==> versionPointers[s] == if chains[s] == [] then None else Some(chains[s][0]))
    }

    /** What the slot means: its base row and its chain. */
    ghost function CellOf(s: nat): Cell<Tuple>
      requires Valid() && s < |chains|
      reads this
    {
      Cell(Base(s), Undos(records, chains[s]))
    }

    ghost predicate IsLinked(r: nat)
      reads this
    {
      LinkedIn(origins, chains, r)
    }

    constructor ()
      ensures Valid() && chains == [] && records == [] && origins == []
    {
      deleted, columns, versionPointers, records := [], [], [], [];
      tableOf, chains, origins := [], [], [];
    }

    /** A new slot whose only record says that nothing was there before the insertion. */
    method PushInserted(table: nat, row: Tuple, id: nat) returns (rec: nat)
      requires Valid()
      modifies this
      ensures Valid()
      ensures rec == |old(records)| && records == old(records) + [VersionInformation(InChunk(|old(chains)|), None, id, None)]
      ensures tableOf == old(tableOf) + [table]
      ensures chains == old(chains) + [[rec]] && origins == old(origins) + [Origin(|old(chains)|, row)]
      ensures forall s :: 0 <= s < |old(chains)| ==> CellOf(s) == old(CellOf(s))
      ensures CellOf(|old(chains)|) == Overwrite(Cell(None, []), id, Some(row))
    {
      rec := |records|;
      var slot := |columns|;
      records := records + [VersionInformation(InChunk(slot), None, id, None)];
      versionPointers := versionPointers + [Some(rec)];
      columns := columns + [row];
      deleted := deleted + [false];
      tableOf := tableOf + [table];
      chains, origins := chains + [[rec]], origins + [Origin(slot, row)];
      forall s | 0 <= s < slot
        ensures ChainOk(records, origins, chains[s], s, Base(s)) && Undos(records, chains[s]) == old(Undos(records, chains[s]))
      {
        assert Base(s) == old(Base(s)) && chains[s] == old(chains[s]);
        ChainFrame(old(records), records, old(origins), origins, chains[s], s, Base(s));
      }
    }

    /** The row's data moves into a new undo record on top of its chain; whether the row was deleted does not. */
    method PushTuple(slot: nat, id: nat) returns (rec: nat)
      requires Valid() && slot < |chains|
      modifies this
      ensures Valid()
      ensures rec == |old(records)| && |records| == rec + 1
      ensures chains == old(chains)[slot := [rec] + old(chains)[slot]] && origins == old(origins) + [Origin(slot, [])]
      ensures records[rec].tupleData.Some? && records[rec].versionNumber == id
      ensures forall r :: 0 <= r < rec ==> records[r].versionNumber == old(records)[r].versionNumber && records[r].tupleData == old(records)[r].tupleData
      ensures deleted == old(deleted) && columns == old(columns) && tableOf == old(tableOf)
      ensures forall s :: 0 <= s < |chains| && s != slot ==> CellOf(s) == old(CellOf(s))
      ensures CellOf(slot) == Touched(old(CellOf(slot)), columns[slot], id, old(Base(slot)))
    {
      ghost var chain := chains[slot];
      assert ChainOk(records, origins, chain, slot, Base(slot));
      ChainUnderDead(records, origins, chain, slot, columns[slot], Base(slot));
      if chain != [] { assert InPlace(records, origins, chain, slot, Base(slot), 0); }
      rec := |records|;
      var next := versionPointers[slot];
      records := records + [VersionInformation(InChunk(slot), next, id, Some(columns[slot]))];
      versionPointers := versionPointers[slot := Some(rec)];
      if next.Some? {
        records := records[next.value := records[next.value].(link := Newer(rec))];
      }
      chains, origins := chains[slot := [rec] + chains[slot]], origins + [Origin(slot, [])];
      forall s | 0 <= s < |chains| && s != slot
        ensures ChainOk(records, origins, chains[s], s, Base(s)) && Undos(records, chains[s]) == old(Undos(records, chains[s]))
      {
        ChainFrame(old(records), records, old(origins), origins, chains[s], s, Base(s));
      }
      ChainPush(old(records), records, old(origins), Origin(slot, []), chain, slot, columns[slot], id, Base(slot));
    }

    /** The newest record of a chain goes back into the base row and leaves the chain. */
    method Undo(info: nat)
      requires Valid() && IsLinked(info) && chains[origins[info].slot][0] == info
      modifies this
      ensures Valid() && origins == old(origins) && tableOf == old(tableOf) && |records| == |old(records)|
      ensures forall r :: 0 <= r < |records| ==> records[r].versionNumber == old(records)[r].versionNumber && records[r].tupleData == old(records)[r].tupleData
      ensures chains == old(chains)[origins[info].slot := old(chains)[origins[info].slot][1..]]
      ensures CellOf(origins[info].slot) == Pop(old(CellOf(origins[info].slot)))
      ensures forall t :: 0 <= t < |chains| && t != origins[info].slot ==> CellOf(t) == old(CellOf(t))
    {
      ghost var slot := origins[info].slot;
      ghost var chain := chains[slot];
      assert ChainOk(records, origins, chain, slot, Base(slot));
      assert InPlace(records, origins, chain, slot, Base(slot), 0);
      if 1 < |chain| { assert InPlace(records, origins, chain, slot, Base(slot), 1); }
      var entry := records[info].link.slot;
      assert entry == slot;
      if records[info].tupleData.None? {
        deleted := deleted[entry := true];
      } else {
        deleted := deleted[entry := false];
        columns := columns[entry := records[info].tupleData.value];
      }
      var next := records[info].next;
      versionPointers := versionPointers[entry := next];
      if next.Some? {
        records := records[next.value := records[next.value].(link := InChunk(entry))];
      }
      chains := chains[slot := chain[1..]];
      PopSlots(old(records), records, origins, old(chains), old(Bases()), slot);
      assert Bases() == old(Bases())[slot := old(records)[info].tupleData];
    }

    /** Unlinks the newest record of a chain: the slot points to the next one. */
    method CleanupHead(info: nat, ghost p: nat)
      requires Valid() && IsLinked(info)
      requires p < |chains[origins[info].slot]| && chains[origins[info].slot][p] == info && p == 0
      requires p + 1 < |chains[origins[info].slot]| ==> records[chains[origins[info].slot][p + 1]].tupleData.Some?
      modifies this
      ensures Valid() && origins == old(origins) && tableOf == old(tableOf) && |records| == |old(records)|
      ensures forall r :: 0 <= r < |records| ==> records[r].versionNumber == old(records)[r].versionNumber && records[r].tupleData == old(records)[r].tupleData
      ensures chains == old(chains)[origins[info].slot := Cut(old(chains)[origins[info].slot], p)]
      ensures CellOf(origins[info].slot) == Cell(old(CellOf(origins[info].slot)).cur, Cut(old(CellOf(origins[info].slot)).undo, p))
      ensures forall t :: 0 <= t < |chains| && t != origins[info].slot ==> CellOf(t) == old(CellOf(t))
    {
      ghost var slot := origins[info].slot;
      ghost var chain := chains[slot];
      assert ChainOk(records, origins, chain, slot, Base(slot));
      assert InPlace(records, origins, chain, slot, Base(slot), 0);
      if 1 < |chain| { assert InPlace(records, origins, chain, slot, Base(slot), 1); }
      var entry := records[info].link.slot;
      var next := records[info].next;
      versionPointers := versionPointers[entry := next];
      if next.Some? {
        records := records[next.value := records[next.value].(link := InChunk(entry))];
      }
      chains := chains[slot := Cut(chain, p)];
      assert Joined(old(records), records, chain, p);
      UnlinkSlots(old(records), records, origins, old(chains), Bases(), slot, p);
    }

    /** Unlinks any other record: its newer neighbour points to the next one. */
    method UnlinkInner(info: nat, ghost p: nat)
      requires Valid() && IsLinked(info)
      requires p < |chains[origins[info].slot]| && chains[origins[info].slot][p] == info && 0 < p
      requires p + 1 < |chains[origins[info].slot]| ==> records[chains[origins[info].slot][p + 1]].tupleData.Some?
      modifies this
      ensures Valid() && origins == old(origins) && tableOf == old(tableOf) && |records| == |old(records)|
      ensures forall r :: 0 <= r < |records| ==> records[r].versionNumber == old(records)[r].versionNumber && records[r].tupleData == old(records)[r].tupleData
      ensures chains == old(chains)[origins[info].slot := Cut(old(chains)[origins[info].slot], p)]
      ensures CellOf(origins[info].slot) == Cell(old(CellOf(origins[info].slot)).cur, Cut(old(CellOf(origins[info].slot)).undo, p))
      ensures forall t :: 0 <= t < |chains| && t != origins[info].slot ==> CellOf(t) == old(CellOf(t))
    {
      ghost var slot := origins[info].slot;
      ghost var chain := chains[slot];
      assert ChainOk(records, origins, chain, slot, Base(slot));
      assert InPlace(records, origins, chain, slot, Base(slot), p);
      assert InPlace(records, origins, chain, slot, Base(slot), p - 1);
      if p + 1 < |chain| { assert InPlace(records, origins, chain, slot, Base(slot), p + 1); }
      var parent := records[info].link.rec;
      var next := records[info].next;
      records := records[parent := records[parent].(next := next)];
      if next.Some? {
        records := records[next.value := records[next.value].(link := Newer(parent))];
      }
      chains := chains[slot := Cut(chain, p)];
      assert Joined(old(records), records, chain, p);
      UnlinkSlots(old(records), records, origins, old(chains), Bases(), slot, p);
    }

    method Cleanup(info: nat, ghost p: nat)
      requires Valid() && IsLinked(info)
      requires p < |chains[origins[info].slot]| && chains[origins[info].slot][p] == info
      requires p + 1 < |chains[origins[info].slot]| ==> records[chains[origins[info].slot][p + 1]].tupleData.Some?
      modifies this
      ensures Valid() && origins == old(origins) && tableOf == old(tableOf) && |records| == |old(records)|
      ensures forall r :: 0 <= r < |records| ==> records[r].versionNumber == old(records)[r].versionNumber && records[r].tupleData == old(records)[r].tupleData
      ensures chains == old(chains)[origins[info].slot := Cut(old(chains)[origins[info].slot], p)]
      ensures CellOf(origins[info].slot) == Cell(old(CellOf(origins[info].slot)).cur, Cut(old(CellOf(origins[info].slot)).undo, p))
      ensures forall t :: 0 <= t < |chains| && t != origins[info].slot ==> CellOf(t) == old(CellOf(t))
    {
      ghost var slot := origins[info].slot;
      assert InPlace(records, origins, chains[slot], slot, Base(slot), p);
      if records[info].link.InChunk? {
        CleanupHead(info, p);
      } else {
        UnlinkInner(info, p);
      }
    }

    /** Stamps a record with the commit id. */
    method Stamp(info: nat, commitId: nat)
      requires Valid() && info < |records|
      modifies this`records
      ensures Valid()
      ensures records == old(records)[info := old(records)[info].(versionNumber := commitId)]
    {
      records := records[info := records[info].(versionNumber := commitId)];
      forall s | 0 <= s < |chains| ensures ChainOk(records, origins, chains[s], s, Base(s)) {
        ChainStamped(old(records), records, origins, chains[s], s, Base(s));
      }
    }

    /** Overwrites the base row; the value it replaces is already in the newest record. */
    method SetBase(slot: nat, row: Tuple, gone: bool)
      requires Valid() && slot < |chains| && chains[slot] != []
      requires chains[slot][0] < |records| && records[chains[slot][0]].tupleData.Some?
      modifies this`columns, this`deleted
      ensures Valid()
      ensures columns == old(columns)[slot := row] && deleted == old(deleted)[slot := gone]
      ensures CellOf(slot) == Cell(if gone then None else Some(row), old(CellOf(slot)).undo)
      ensures forall s :: 0 <= s < |chains| && s != slot ==> CellOf(s) == old(CellOf(s))
    {
      columns := columns[slot := row];
      deleted := deleted[slot := gone];
      ghost var chain := chains[slot];
      assert ChainOk(records, origins, chain, slot, old(Base(slot)));
      forall i: nat | i < |chain| ensures InPlace(records, origins, chain, slot, Base(slot), i) {
        assert InPlace(records, origins, chain, slot, old(Base(slot)), i);
      }
      forall s | 0 <= s < |chains| && s != slot ensures Base(s) == old(Base(s)) {}
    }

    /** The old row is safe in the newest record, so that the base row may change. */
    ghost predicate Saved(slot: nat)
      requires Valid()
      reads this
    {
      && slot < |chains| && chains[slot] != []
      && chains[slot][0] < |records| && records[chains[slot][0]].tupleData.Some?
    }

    /** Stores one column of an update.  Of a row that comes several times the last value stays. */
    method StoreColumn(slots: seq<nat>, column: nat, values: seq<int>)
      requires Valid() && |values| == |slots|
      requires forall i :: 0 <= i < |slots| ==> Saved(slots[i]) && column < |columns[slots[i]]|
      modifies this`columns, this`deleted
      ensures Valid() && deleted == old(deleted) && |columns| == |old(columns)|
      ensures forall i :: 0 <= i < |slots| && IsLast(slots, i) ==>
        slots[i] < |columns| && columns[slots[i]] == old(columns)[slots[i]][column := values[i]]
      ensures forall s :: 0 <= s < |columns| && s !in slots ==> columns[s] == old(columns)[s]
    {
      var i := 0;
      while i < |slots|
        invariant 0 <= i <= |slots| && Valid() && deleted == old(deleted) && |columns| == |old(columns)|
        invariant forall k :: 0 <= k < |slots| ==> |columns[slots[k]]| == |old(columns)[slots[k]]|
        invariant StoredIn(old(columns), slots[..i], column, values)
      {
        StoredNext(old(columns), columns, slots, column, values, i);
        SetBase(slots[i], columns[slots[i]][column := values[i]], deleted[slots[i]]);
        i := i + 1;
      }
      assert slots[..i] == slots;
      forall k | 0 <= k < |slots| && IsLast(slots, k) ensures columns[slots[k]] == old(columns)[slots[k]][column := values[k]] {
        LastPlaceIs(slots, k);
        assert StoredRow(old(columns), columns, slots, column, values, slots[k]);
      }
      forall s | 0 <= s < |columns| && s !in slots ensures columns[s] == old(columns)[s] {
        assert StoredRow(old(columns), columns, slots, column, values, s);
      }
    }

    /** The rows of the slots have one value that is new. */
    ghost predicate StoredIn(was: seq<Tuple>, slots: seq<nat>, column: nat, values: seq<int>)
      requires |slots| <= |values|
      reads `columns
    {
      StoredRows(was, columns, slots, column, values)
    }

    /** The rows hold what they held before, but for the values of the first j columns of an update. */
    ghost predicate StoredUpTo(was: seq<Tuple>, slots: seq<nat>, columnIds: seq<nat>, updates: seq<seq<int>>, j: nat)
      requires j <= |columnIds| == |updates| && forall k :: 0 <= k < |updates| ==> |updates[k]| == |slots|
      reads `columns
    {
      && |columns| == |was|
      && (forall i :: 0 <= i < |slots| && IsLast(slots, i) ==>
            slots[i] < |columns| && columns[slots[i]] == Assigned(was[slots[i]], columnIds[..j], RowValues(updates, i)[..j]))
      && (forall s :: 0 <= s < |columns| && s !in slots ==> columns[s] == was[s])
    }

    /** Stores the columns of an update, one column after the other. */
    method StoreColumns(slots: seq<nat>, columnIds: seq<nat>, updates: seq<seq<int>>)
      requires Valid() && |updates| == |columnIds|
      requires forall j :: 0 <= j < |updates| ==> |updates[j]| == |slots|
      requires forall i :: 0 <= i < |slots| ==> Saved(slots[i])
      requires forall i, j :: 0 <= i < |slots| && 0 <= j < |columnIds| ==> slots[i] < |columns| && columnIds[j] < |columns[slots[i]]|
      modifies this`columns, this`deleted
      ensures Valid() && deleted == old(deleted) && |columns| == |old(columns)|
      ensures forall i :: 0 <= i < |slots| && IsLast(slots, i) ==>
        slots[i] < |columns| && columns[slots[i]] == Assigned(old(columns)[slots[i]], columnIds, RowValues(updates, i))
      ensures forall s :: 0 <= s < |columns| && s !in slots ==> columns[s] == old(columns)[s]
    {
      ghost var was := columns;
      var j := 0;
      while j < |columnIds|
        invariant 0 <= j <= |columnIds| && Valid() && deleted == old(deleted)
        invariant StoredUpTo(was, slots, columnIds, updates, j)
        invariant forall i :: 0 <= i < |slots| ==> Saved(slots[i]) && slots[i] < |columns| && |columns[slots[i]]| == |was[slots[i]]|
      {
        StoreColumn(slots, columnIds[j], updates[j]);
        forall i | 0 <= i < |slots| && IsLast(slots, i)
          ensures columns[slots[i]] == Assigned(was[slots[i]], columnIds[..j + 1], RowValues(updates, i)[..j + 1])
        {
          AssignedOneMore(was[slots[i]], columnIds, updates, i, j);
        }
        forall i | 0 <= i < |slots| ensures |columns[slots[i]]| == |was[slots[i]]| {
          var k := LastExists(slots, i);
        }
        j := j + 1;
      }
      assert columnIds[..j] == columnIds;
      forall i | 0 <= i < |slots| ensures RowValues(updates, i)[..j] == RowValues(updates, i) {}
    }

    /** The visibility walk of a scan.  `inBase` says that the row is the one in the base table. */
    method Read(slot: nat, id: nat, start: nat) returns (row: Option<Tuple>, inBase: bool)
      requires Valid() && slot < |chains|
      ensures row == Visible(CellOf(slot), Reader(id, start))
      ensures inBase == (CellOf(slot).undo == [] || Sees(Reader(id, start), CellOf(slot).undo[0].stamp))
    {
      ghost var chain, cell, r := chains[slot], CellOf(slot), Reader(id, start);
      assert ChainOk(records, origins, chain, slot, Base(slot));
      if versionPointers[slot].None? {
        return if deleted[slot] then None else Some(columns[slot]), true;
      }
      var version := versionPointers[slot].value;
      assert InPlace(records, origins, chain, slot, Base(slot), 0);
      if records[version].versionNumber == id || records[version].versionNumber < start {
        return if deleted[slot] then None else Some(columns[slot]), true;
      }
      ghost var i: nat := 0;
      while true
        invariant i < |chain| && version == chain[i]
        invariant Visible(cell, r) == Visible(Cell(cell.undo[i].before, cell.undo[i + 1..]), r)
        decreases |chain| - i
      {
        assert InPlace(records, origins, chain, slot, Base(slot), i);
        var next := records[version].next;
        if next.None? {
          break;
        }
        if records[next.value].versionNumber == id {
          break;
        }
        if records[next.value].versionNumber < start {
          break;
        }
        version := next.value;
        assert cell.undo[i + 1..][1..] == cell.undo[i + 2..];
        i := i + 1;
      }
      row, inBase := records[version].tupleData, false;
    }
  }
}
