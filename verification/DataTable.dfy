/** A table: its chunks of rows, and the operations on them.

  Rows are numbered through all chunks.  A chunk knows the number of its first row, and all chunks
  but the last are full. */
module DataTable {
  import opened Versions
  import opened Mvcc
  import opened Snapshot
  import opened Reference
  import opened TableStorage
  import opened Engine
  import UB = UndoBuffer

  const STORAGE_CHUNK_SIZE: nat := 10240

  /** The slots of its rows, in order. */
  datatype StorageChunk = StorageChunk(start: nat, slots: seq<nat>)

  datatype ScanStructure = ScanStructure(chunk: Option<nat>, offset: nat)

  /** A row that a scan gives out, with its identifier and its null mask. */
  datatype Found = Found(rowId: nat, row: Tuple, nulls: seq<bool>)

  /** Aborted means that an assertion has ended the process. */
  datatype Outcome = Done | OutOfRange | Conflict | Aborted

  /** The slots of a table, in the order of its rows. */
  function Rows(chunks: seq<StorageChunk>): seq<nat> {
    if chunks == [] then [] else Rows(chunks[..|chunks| - 1]) + chunks[|chunks| - 1].slots
  }

  /** The slots that belong to a table. */
  function SlotsOf(tableOf: seq<nat>, table: nat): (slots: seq<nat>)
  {
    if tableOf == [] then [] else
    var n := |tableOf| - 1;
    SlotsOf(tableOf[..n], table) + if tableOf[n] == table then [n] else []
  }

  /** The chunks are contiguous, and all but the last are full. */
  ghost predicate Shape(chunks: seq<StorageChunk>) {
    && chunks != []
    && (forall k: nat :: k < |chunks| ==> |chunks[k].slots| <= STORAGE_CHUNK_SIZE && chunks[k].start == k * STORAGE_CHUNK_SIZE)
    && (forall k: nat :: k < |chunks| - 1 ==> |chunks[k].slots| == STORAGE_CHUNK_SIZE)
    && (|chunks| > 1 ==> chunks[|chunks| - 1].slots != [])
  }

  lemma {:induction false} FullChunks(chunks: seq<StorageChunk>)
    requires forall k: nat :: k < |chunks| ==> |chunks[k].slots| == STORAGE_CHUNK_SIZE
    ensures |Rows(chunks)| == |chunks| * STORAGE_CHUNK_SIZE
  {
    if chunks != [] {
      var n := |chunks| - 1;
      FullChunks(chunks[..n]);
    }
  }

  /** Rows are found in their chunk at their distance from its start. */
  lemma {:induction false} RowsAt(chunks: seq<StorageChunk>, k: nat, j: nat)
    requires Shape(chunks) && k < |chunks| && j < |chunks[k].slots|
    ensures chunks[k].start + j < |Rows(chunks)| && Rows(chunks)[chunks[k].start + j] == chunks[k].slots[j]
  {
    RowsOfPrefix(chunks, |chunks|, k, j);
    assert chunks[..|chunks|] == chunks;
  }

  lemma {:induction false} RowsOfPrefix(chunks: seq<StorageChunk>, m: nat, k: nat, j: nat)
    requires Shape(chunks) && k < m <= |chunks| && j < |chunks[k].slots|
    ensures chunks[k].start + j < |Rows(chunks[..m])| && Rows(chunks[..m])[chunks[k].start + j] == chunks[k].slots[j]
  {
    assert chunks[..m][..m - 1] == chunks[..m - 1];
    if k < m - 1 {
      RowsOfPrefix(chunks, m - 1, k, j);
    } else {
      FullChunks(chunks[..m - 1]);
    }
  }

  lemma RowCount(chunks: seq<StorageChunk>)
    requires Shape(chunks)
    ensures var last := chunks[|chunks| - 1]; |Rows(chunks)| == last.start + |last.slots|
  {
    FullChunks(chunks[..|chunks| - 1]);
  }

  lemma SlotsPush(tableOf: seq<nat>, t: nat, table: nat)
    ensures SlotsOf(tableOf + [t], table) == SlotsOf(tableOf, table) + if t == table then [|tableOf|] else []
  {
    assert (tableOf + [t])[..|tableOf|] == tableOf;
  }

  /** Each slot of a table is listed once, in ascending order. */
  lemma {:induction false} SlotsListed(tableOf: seq<nat>, table: nat)
    ensures forall i, j :: 0 <= i < j < |SlotsOf(tableOf, table)| ==> SlotsOf(tableOf, table)[i] < SlotsOf(tableOf, table)[j]
    ensures forall s: nat :: s in SlotsOf(tableOf, table) <==> s < |tableOf| && tableOf[s] == table
  {
    if tableOf != [] {
      var n := |tableOf| - 1;
      SlotsListed(tableOf[..n], table);
      var before, all := SlotsOf(tableOf[..n], table), SlotsOf(tableOf, table);
      assert forall i :: 0 <= i < |before| ==> before[i] in before && before[i] == all[i];
    }
  }

  lemma {:induction false} SlotsOfCopies(tableOf: seq<nat>, table: nat, n: nat)
    ensures SlotsOf(tableOf + Copies(table, n), table) == SlotsOf(tableOf, table) + NewSlots(|tableOf|, n)
    ensures forall other :: other != table ==> SlotsOf(tableOf + Copies(table, n), other) == SlotsOf(tableOf, other)
  {
    if n == 0 {
      assert tableOf + Copies(table, 0) == tableOf;
    } else {
      SlotsOfCopies(tableOf, table, n - 1);
      assert tableOf + Copies(table, n) == tableOf + Copies(table, n - 1) + [table];
      forall t ensures SlotsOf(tableOf + Copies(table, n), t) == SlotsOf(tableOf + Copies(table, n - 1), t) + (if t == table then [|tableOf| + n - 1] else []) {
        SlotsPush(tableOf + Copies(table, n - 1), table, t);
      }
      assert NewSlots(|tableOf|, n) == NewSlots(|tableOf|, n - 1) + [|tableOf| + n - 1];
    }
  }

  lemma RowsExtend(chunks: seq<StorageChunk>, slots: seq<nat>)
    requires Shape(chunks) && |chunks[|chunks| - 1].slots| + |slots| <= STORAGE_CHUNK_SIZE
    ensures var last := |chunks| - 1;
            var chunks' := chunks[last := chunks[last].(slots := chunks[last].slots + slots)];
            Shape(chunks') && Rows(chunks') == Rows(chunks) + slots
  {
    var last := |chunks| - 1;
    var chunk := chunks[last].(slots := chunks[last].slots + slots);
    var chunks' := chunks[last := chunk];
    assert chunks'[..last] == chunks[..last];
    assert Rows(chunks') == Rows(chunks[..last]) + (chunks[last].slots + slots);
    assert forall k :: 0 <= k < last ==> chunks'[k] == chunks[k];
  }

  lemma RowsNewChunk(chunks: seq<StorageChunk>, chunk: StorageChunk)
    requires Shape(chunks) && |chunks[|chunks| - 1].slots| == STORAGE_CHUNK_SIZE
    requires chunk.slots != [] && |chunk.slots| <= STORAGE_CHUNK_SIZE
    requires chunk.start == chunks[|chunks| - 1].start + |chunks[|chunks| - 1].slots|
    ensures Shape(chunks + [chunk]) && Rows(chunks + [chunk]) == Rows(chunks) + chunk.slots
  {
    assert (chunks + [chunk])[..|chunks|] == chunks;
  }

  /** The events of an append, the rows of the table and the deeds of the transaction. */
  ghost predicate Appended(h: History, h': History, r: seq<nat>, r': seq<nat>, ds: seq<UB.Deed>, ds': seq<UB.Deed>,
                           id: nat, table: nat, first: nat, rows: seq<Tuple>) {
    && h' == h + WriteEvents(id, NewSlots(first, |rows|), Somes(rows))
    && r' == r + NewSlots(first, |rows|)
    && ds' == ds + Insertions(table, rows)
  }

  /** Appended(), closed. */
  ghost predicate Grown(h: History, h': History, r: seq<nat>, r': seq<nat>, ds: seq<UB.Deed>, ds': seq<UB.Deed>,
                        id: nat, table: nat, first: nat, rows: seq<Tuple>, n: nat := CLOSED)
    decreases |rows|, n
  {
    if n > 0 then Grown(h, h', r, r', ds, ds', id, table, first, rows, n - 1) else Appended(h, h', r, r', ds, ds', id, table, first, rows)
  }

  lemma {:induction false} GrownOpens(h: History, h': History, r: seq<nat>, r': seq<nat>, ds: seq<UB.Deed>, ds': seq<UB.Deed>,
                                      id: nat, table: nat, first: nat, rows: seq<Tuple>, n: nat := CLOSED)
    ensures Grown(h, h', r, r', ds, ds', id, table, first, rows, n) <==> Appended(h, h', r, r', ds, ds', id, table, first, rows)
    decreases |rows|, n
  {
    if n > 0 { GrownOpens(h, h', r, r', ds, ds', id, table, first, rows, n - 1); }
  }

  lemma AppendedNothing(h: History, r: seq<nat>, ds: seq<UB.Deed>, id: nat, table: nat, first: nat)
    ensures Grown(h, h, r, r, ds, ds, id, table, first, [])
  {
    GrownOpens(h, h, r, r, ds, ds, id, table, first, []);
  }

  lemma EventsJoin(id: nat, first: nat, rows: seq<Tuple>, k: nat)
    requires k <= |rows|
    ensures NewSlots(first, |rows|) == NewSlots(first, k) + NewSlots(first + k, |rows| - k)
    ensures WriteEvents(id, NewSlots(first, |rows|), Somes(rows))
         == WriteEvents(id, NewSlots(first, k), Somes(rows[..k])) + WriteEvents(id, NewSlots(first + k, |rows| - k), Somes(rows[k..]))
  {
  }

  lemma AppendsJoin(id: nat, table: nat, first: nat, rows: seq<Tuple>, k: nat)
    requires k <= |rows|
    ensures NewSlots(first, |rows|) == NewSlots(first, k) + NewSlots(first + k, |rows| - k)
    ensures WriteEvents(id, NewSlots(first, |rows|), Somes(rows))
         == WriteEvents(id, NewSlots(first, k), Somes(rows[..k])) + WriteEvents(id, NewSlots(first + k, |rows| - k), Somes(rows[k..]))
    ensures Insertions(table, rows) == Insertions(table, rows[..k]) + Insertions(table, rows[k..])
  {
    EventsJoin(id, first, rows, k);
  }

  lemma CopiesTwice(tableOf: seq<nat>, table: nat, rows: seq<Tuple>, k: nat)
    requires k <= |rows|
    ensures tableOf + Copies(table, |rows[..k]|) + Copies(table, |rows[k..]|) == tableOf + Copies(table, |rows|)
  {
  }

  /** Appending in two parts is appending. */
  lemma AppendedTwice(h: History, h': History, h'': History, r: seq<nat>, r': seq<nat>, r'': seq<nat>,
                      ds: seq<UB.Deed>, ds': seq<UB.Deed>, ds'': seq<UB.Deed>, id: nat, table: nat, first: nat, rows: seq<Tuple>, k: nat)
    requires k <= |rows|
    requires Grown(h, h', r, r', ds, ds', id, table, first, rows[..k])
    requires Grown(h', h'', r', r'', ds', ds'', id, table, first + k, rows[k..])
    ensures Appended(h, h'', r, r'', ds, ds'', id, table, first, rows)
  {
    GrownOpens(h, h', r, r', ds, ds', id, table, first, rows[..k]);
    GrownOpens(h', h'', r', r'', ds', ds'', id, table, first + k, rows[k..]);
    AppendsJoin(id, table, first, rows, k);
    JoinAssociates(h, WriteEvents(id, NewSlots(first, k), Somes(rows[..k])), WriteEvents(id, NewSlots(first + k, |rows| - k), Somes(rows[k..])));
    JoinAssociates(r, NewSlots(first, k), NewSlots(first + k, |rows| - k));
    JoinAssociates(ds, Insertions(table, rows[..k]), Insertions(table, rows[k..]));
  }

  // ----- what a scan emits -----

  /** The row identifier that a scan hands out.  A row in the base table goes out with its number, one read from an
      old version with its distance from the start of the chunk. */
  function RowId(c: Cell<Tuple>, r: Reader, number: nat): nat {
    if c.undo == [] || Sees(r, c.undo[0].stamp) then number else number % STORAGE_CHUNK_SIZE
  }

  /** Which columns of a row hold NULL. */
  function Nulls(row: Tuple): (nulls: seq<bool>)
    ensures |nulls| == |row| && forall i :: 0 <= i < |row| ==> nulls[i] == (row[i] == NULL_VALUE)
  {
    seq(|row|, i requires 0 <= i < |row| => row[i] == NULL_VALUE)
  }

  function NoNulls(width: nat): (nulls: seq<bool>)
    ensures |nulls| == width && forall i :: 0 <= i < width ==> !nulls[i]
  {
    seq(width, i => false)
  }

  /** A row of the base table is appended value by value, and every NULL among them is marked. */
  function FromBase(number: nat, row: Tuple): Found { Found(number, row, Nulls(row)) }

  /** An old version is copied byte by byte, and nothing is marked. */
  function FromVersion(place: nat, row: Tuple): Found { Found(place, row, NoNulls(|row|)) }

  /** How a row goes out that is read from a cell. */
  function Given(c: Cell<Tuple>, r: Reader, number: nat, row: Tuple): (f: Found)
    ensures f.row == row && f.rowId == RowId(c, r, number)
  {
    if c.undo == [] || Sees(r, c.undo[0].stamp) then FromBase(number, row) else FromVersion(number % STORAGE_CHUNK_SIZE, row)
  }

  function GivenIfAny(c: Cell<Tuple>, r: Reader, number: nat, value: Option<Tuple>): multiset<Found> {
    match value
    case None => multiset{}
    case Some(row) => multiset{Given(c, r, number, row)}
  }

  /** What a scan emits for one row. */
  function Emission(c: Cell<Tuple>, r: Reader, number: nat): multiset<Found> {
    GivenIfAny(c, r, number, Visible(c, r))
  }

  /** A table as a transaction finds it. */
  datatype Scene = Scene(cells: map<nat, Cell<Tuple>>, reader: Reader, rows: seq<nat>)

  ghost function EmissionAt(s: Scene, number: nat): multiset<Found> {
    if number < |s.rows| then Emission(CellAt(s.cells, s.rows[number]), s.reader, number) else multiset{}
  }

  ghost function Emissions(s: Scene, numbers: seq<nat>): multiset<Found>
  {
    if numbers == [] then multiset{} else
    var n := |numbers| - 1;
    Emissions(s, numbers[..n]) + EmissionAt(s, numbers[n])
  }

  /** Emissions.  The counter only keeps the verifier from unfolding the sum wherever it is mentioned. */
  ghost function Emitted(s: Scene, numbers: seq<nat>, n: nat := CLOSED): multiset<Found>
    decreases |numbers|, n
  {
    if n == 0 then Emissions(s, numbers) else Emitted(s, numbers, n - 1)
  }

  lemma {:induction false} EmittedIs(s: Scene, numbers: seq<nat>, n: nat := CLOSED)
    ensures Emitted(s, numbers, n) == Emissions(s, numbers)
    decreases n
  {
    if n > 0 { EmittedIs(s, numbers, n - 1); }
  }

  lemma EmissionsPush(s: Scene, numbers: seq<nat>, number: nat)
    ensures Emitted(s, numbers + [number]) == Emitted(s, numbers) + EmissionAt(s, number)
  {
    EmittedIs(s, numbers + [number]);
    EmittedIs(s, numbers);
    assert (numbers + [number])[..|numbers|] == numbers;
  }

  lemma SumExchanges(x: multiset<Found>, y: multiset<Found>, z: multiset<Found>)
    ensures (x + z) + y == (x + y) + z
    ensures x + (y + z) == (x + y) + z
  {
  }

  lemma EmissionsNone(s: Scene)
    ensures Emitted(s, []) == multiset{}
  {
    EmittedIs(s, []);
  }

  lemma {:induction false} EmissionsJoin(s: Scene, a: seq<nat>, b: seq<nat>)
    ensures Emitted(s, a + b) == Emitted(s, a) + Emitted(s, b)
  {
    if b == [] {
      assert a + b == a;
      EmissionsNone(s);
    } else {
      var n := |b| - 1;
      EmissionsJoin(s, a, b[..n]);
      EmissionsPush(s, a + b[..n], b[n]);
      EmissionsPush(s, b[..n], b[n]);
      assert a + b == a + b[..n] + [b[n]] && b == b[..n] + [b[n]];
      SumAssociates(Emitted(s, a), Emitted(s, b[..n]), EmissionAt(s, b[n]));
    }
  }

  // ----- a scan reads the snapshot -----

  /** What the reference machine would let a transaction see of the rows with the given numbers. */
  ghost function SnapshotRows(v: View<nat, Tuple>, s: Scene, numbers: seq<nat>): multiset<Found> {
    if numbers == [] then multiset{} else
    var n := |numbers| - 1;
    SnapshotRows(v, s, numbers[..n]) +
      if numbers[n] < |s.rows|
      then GivenIfAny(CellAt(s.cells, s.rows[numbers[n]]), s.reader, numbers[n], SpecRead(v, s.rows[numbers[n]]))
      else multiset{}
  }

  /** A scan emits the rows of the transaction's snapshot with its own writes, and no others. */
  lemma {:induction false} ScanReadsSnapshot(h: History, i: nat, s: Scene, numbers: seq<nat>)
    requires Clean(h) && i < |Run(h).active| && s.cells == Run(h).cells && s.reader == Run(h).active[i].AsReader()
    ensures Run(h).active[i].id in SpecRun(h).views
    ensures Emitted(s, numbers) == SnapshotRows(SpecRun(h).views[Run(h).active[i].id], s, numbers)
  {
    EmittedIs(s, numbers);
    SnapshotIsolation(h, i, 0);
    if numbers != [] {
      var n := |numbers| - 1;
      ScanReadsSnapshot(h, i, s, numbers[..n]);
      EmittedIs(s, numbers[..n]);
      if numbers[n] < |s.rows| {
        SnapshotIsolation(h, i, s.rows[numbers[n]]);
      }
    }
  }

  /** The transaction sees the row, and in the base table. */
  ghost predicate BaseAt(s: Scene, number: nat) {
    number < |s.rows| &&
    var c := CellAt(s.cells, s.rows[number]);
    c.cur.Some? && (c.undo == [] || Sees(s.reader, c.undo[0].stamp))
  }

  lemma BaseEmits(s: Scene, number: nat)
    requires BaseAt(s, number)
    ensures EmissionAt(s, number) == multiset{FromBase(number, CellAt(s.cells, s.rows[number]).cur.value)}
  {
  }

  /** The entries of a window so far: live rows without versions, and rows with versions. */
  ghost predicate SiftedNow(s: Scene, p: nat, regular: seq<nat>, versions: seq<nat>, i: nat) {
    && |regular| + |versions| <= i
    && (forall e :: e in regular ==> e < i && BaseAt(s, p + e))
    && (forall e :: e in versions ==> e < i)
    && Emitted(s, Numbers(p, regular)) + Emitted(s, Numbers(p, versions)) == Emitted(s, Range(p, p + i))
  }

  /** SiftedNow, closed. */
  ghost predicate Sifted(s: Scene, p: nat, regular: seq<nat>, versions: seq<nat>, i: nat, n: nat := CLOSED)
    decreases |regular|, n
  {
    if n == 0 then SiftedNow(s, p, regular, versions, i) else Sifted(s, p, regular, versions, i, n - 1)
  }

  lemma {:induction false} OpenSifted(s: Scene, p: nat, regular: seq<nat>, versions: seq<nat>, i: nat, n: nat := CLOSED)
    ensures Sifted(s, p, regular, versions, i, n) <==> SiftedNow(s, p, regular, versions, i)
    decreases n
  {
    if n > 0 { OpenSifted(s, p, regular, versions, i, n - 1); }
  }

  lemma SiftedNothing(s: Scene, p: nat)
    ensures Sifted(s, p, [], [], 0)
  {
    OpenSifted(s, p, [], [], 0);
    EmissionsNone(s);
    assert Numbers(p, []) == [] && Range(p, p) == [];
  }

  lemma SiftStep(s: Scene, p: nat, regular: seq<nat>, versions: seq<nat>, i: nat, hasVersion: bool, isDeleted: bool,
                 regular': seq<nat>, versions': seq<nat>)
    requires Sifted(s, p, regular, versions, i) && p + i < |s.rows|
    requires hasVersion <==> CellAt(s.cells, s.rows[p + i]).undo != []
    requires isDeleted <==> CellAt(s.cells, s.rows[p + i]).cur.None?
    requires regular' == if !(isDeleted || hasVersion) then regular + [i] else regular
    requires versions' == if hasVersion then versions + [i] else versions
    ensures Sifted(s, p, regular', versions', i + 1)
  {
    OpenSifted(s, p, regular, versions, i);
    OpenSifted(s, p, regular', versions', i + 1);
    NumbersPush(s, p, regular, i);
    NumbersPush(s, p, versions, i);
    RangePush(s, p, i);
    var x, y, one := Emitted(s, Numbers(p, regular)), Emitted(s, Numbers(p, versions)), EmissionAt(s, p + i);
    SumExchanges(x, y, one);
    if isDeleted && !hasVersion { assert one == multiset{} && x + y + one == x + y; }
  }

  /** What reading an entry tells: the row is seen in the base table, in an old version, or not at all. */
  ghost predicate Judged(s: Scene, number: nat, row: Option<Tuple>, inBase: bool, j: nat) {
    if inBase && row.Some? then BaseAt(s, number)
    else EmissionAt(s, number) == if row.None? then multiset{} else multiset{FromVersion(j, row.value)}
  }

  /** The versions so far: the row in the base table, or an old one. */
  ghost predicate ChasedNow(s: Scene, p: nat, regular: seq<nat>, versions: seq<nat>, regular': seq<nat>, alternates: seq<Found>, end: nat) {
    && |regular'| + |alternates| <= |regular| + |versions|
    && (forall e :: e in regular' ==> e < end && BaseAt(s, p + e))
    && Emitted(s, Numbers(p, regular')) + multiset(alternates) == Emitted(s, Numbers(p, regular)) + Emitted(s, Numbers(p, versions))
  }

  /** ChasedNow, closed. */
  ghost predicate Chased(s: Scene, p: nat, regular: seq<nat>, versions: seq<nat>, regular': seq<nat>, alternates: seq<Found>, end: nat, n: nat := CLOSED)
    decreases |regular|, n
  {
    if n == 0 then ChasedNow(s, p, regular, versions, regular', alternates, end)
    else Chased(s, p, regular, versions, regular', alternates, end, n - 1)
  }

  lemma {:induction false} OpenChased(s: Scene, p: nat, regular: seq<nat>, versions: seq<nat>, regular': seq<nat>, alternates: seq<Found>, end: nat, n: nat := CLOSED)
    ensures Chased(s, p, regular, versions, regular', alternates, end, n) <==> ChasedNow(s, p, regular, versions, regular', alternates, end)
    decreases n
  {
    if n > 0 { OpenChased(s, p, regular, versions, regular', alternates, end, n - 1); }
  }

  ghost predicate Entries(entries: seq<nat>, end: nat) {
    forall e :: e in entries ==> e < end
  }

  /** After sifting nothing has been chased yet. */
  lemma ChasedNothing(s: Scene, p: nat, regular: seq<nat>, versions: seq<nat>, end: nat)
    requires Sifted(s, p, regular, versions, end)
    ensures Chased(s, p, regular, [], regular, [], end) && Entries(versions, end)
    ensures |regular| + |versions| <= end && forall e :: e in regular ==> e < end && BaseAt(s, p + e)
  {
    OpenSifted(s, p, regular, versions, end);
    OpenChased(s, p, regular, [], regular, [], end);
    EmissionsNone(s);
    assert Numbers(p, []) == [];
  }

  lemma WindowSum(s: Scene, p: nat, sifted: seq<nat>, versions: seq<nat>, regular: seq<nat>, alternates: seq<Found>, rest: seq<Found>, end: nat)
    requires Sifted(s, p, sifted, versions, end) && Chased(s, p, sifted, versions, regular, alternates, end)
    requires |rest| == |regular| && multiset(rest) == Emitted(s, Numbers(p, regular))
    ensures |alternates + rest| <= end && multiset(alternates + rest) == Emitted(s, Range(p, p + end))
  {
    OpenSifted(s, p, sifted, versions, end);
    OpenChased(s, p, sifted, versions, regular, alternates, end);
    assert multiset(alternates + rest) == multiset(alternates) + multiset(rest);
  }

  /** The rows that are left after chasing are seen in the base table. */
  lemma ChasedAreBase(s: Scene, p: nat, sifted: seq<nat>, versions: seq<nat>, regular: seq<nat>, alternates: seq<Found>, end: nat)
    requires Chased(s, p, sifted, versions, regular, alternates, end)
    ensures forall e :: e in regular ==> e < end && BaseAt(s, p + e)
  {
    OpenChased(s, p, sifted, versions, regular, alternates, end);
  }

  lemma ChaseStep(s: Scene, p: nat, regular: seq<nat>, versions: seq<nat>, regular': seq<nat>, alternates: seq<Found>, end: nat,
                  e: nat, j: nat, row: Option<Tuple>, inBase: bool, regular'': seq<nat>, alternates'': seq<Found>)
    requires Chased(s, p, regular, versions, regular', alternates, end) && e < end && Judged(s, p + e, row, inBase, j)
    requires regular'' == if inBase && row.Some? then regular' + [e] else regular'
    requires alternates'' == if !inBase && row.Some? then alternates + [FromVersion(j, row.value)] else alternates
    ensures Chased(s, p, regular, versions + [e], regular'', alternates'', end)
  {
    OpenChased(s, p, regular, versions, regular', alternates, end);
    OpenChased(s, p, regular, versions + [e], regular'', alternates'', end);
    NumbersPush(s, p, versions, e);
    SumAssociates(Emitted(s, Numbers(p, regular)), Emitted(s, Numbers(p, versions)), EmissionAt(s, p + e));
    ChaseSum(s, p, regular', alternates, e, j, row, inBase);
  }

  lemma ChaseSum(s: Scene, p: nat, regular: seq<nat>, alternates: seq<Found>, e: nat, j: nat, row: Option<Tuple>, inBase: bool)
    requires Judged(s, p + e, row, inBase, j)
    ensures var regular' := if inBase && row.Some? then regular + [e] else regular;
      var alternates' := if !inBase && row.Some? then alternates + [FromVersion(j, row.value)] else alternates;
      Emitted(s, Numbers(p, regular')) + multiset(alternates')
        == Emitted(s, Numbers(p, regular)) + multiset(alternates) + EmissionAt(s, p + e)
  {
    var x, y, one := Emitted(s, Numbers(p, regular)), multiset(alternates), EmissionAt(s, p + e);
    NumbersPush(s, p, regular, e);
    SumExchanges(x, y, one);
    if row.None? {
      assert x + y + one == x + y;
    } else if !inBase {
      assert multiset(alternates + [FromVersion(j, row.value)]) == y + one;
    }
  }

  lemma NumbersPush(s: Scene, p: nat, entries: seq<nat>, e: nat)
    ensures Emitted(s, Numbers(p, entries + [e])) == Emitted(s, Numbers(p, entries)) + EmissionAt(s, p + e)
  {
    assert Numbers(p, entries + [e]) == Numbers(p, entries) + [p + e];
    EmissionsPush(s, Numbers(p, entries), p + e);
  }

  lemma RangePush(s: Scene, p: nat, i: nat)
    ensures Emitted(s, Range(p, p + i + 1)) == Emitted(s, Range(p, p + i)) + EmissionAt(s, p + i)
  {
    assert Range(p, p + i + 1) == Range(p, p + i) + [p + i];
    EmissionsPush(s, Range(p, p + i), p + i);
  }

  lemma RangeJoin(s: Scene, p: nat, q: nat, r: nat)
    requires p <= q <= r
    ensures Emitted(s, Range(p, r)) == Emitted(s, Range(p, q)) + Emitted(s, Range(q, r))
  {
    assert Range(p, r) == Range(p, q) + Range(q, r);
    EmissionsJoin(s, Range(p, q), Range(q, r));
  }

  function Range(p: nat, q: nat): (s: seq<nat>)
    requires p <= q
    ensures |s| == q - p && forall i :: 0 <= i < |s| ==> s[i] == p + i
  {
    seq(q - p, i requires 0 <= i < q - p => p + i)
  }

  /** Row numbers of entries of a window. */
  function Numbers(base: nat, entries: seq<nat>): (s: seq<nat>)
    ensures |s| == |entries| && forall i :: 0 <= i < |s| ==> s[i] == base + entries[i]
  {
    seq(|entries|, i requires 0 <= i < |entries| => base + entries[i])
  }

  class DataTable {
    const engine: Engine
    const table: nat
    /** Whether the build keeps assertions, as the repository's own does. */
    const asserts: bool
    var chunks: seq<StorageChunk>

    ghost predicate Valid()
      reads this, engine, engine.storage
    {
      && engine.Valid()
      && Shape(chunks)
      && Rows(chunks) == SlotsOf(engine.storage.tableOf, table)
    }

    constructor (engine: Engine, table: nat, asserts: bool)
      requires engine.Valid() && SlotsOf(engine.storage.tableOf, table) == []
      ensures Valid() && this.engine == engine && this.table == table && this.asserts == asserts && Rows(chunks) == []
    {
      this.engine, this.table, this.asserts := engine, table, asserts;
      chunks := [StorageChunk(0, [])];
    }

    /** The chunk of a row. */
    method GetChunk(number: nat) returns (chunk: Option<nat>)
      requires Shape(chunks)
      ensures chunk.Some? <==> number < |Rows(chunks)|
      ensures chunk.Some? ==>
        && chunk.value < |chunks| && chunks[chunk.value].start <= number < chunks[chunk.value].start + |chunks[chunk.value].slots|
        && forall k: nat :: k < |chunks| && chunks[k].start <= number < chunks[k].start + |chunks[k].slots| ==> k == chunk.value
    {
      RowCount(chunks);
      var k := 0;
      while k < |chunks|
        invariant 0 <= k <= |chunks|
        invariant forall m: nat :: m < k ==> !(chunks[m].start <= number < chunks[m].start + |chunks[m].slots|)
        invariant k > 0 ==> chunks[k - 1].start + |chunks[k - 1].slots| <= number
      {
        if chunks[k].start <= number < chunks[k].start + |chunks[k].slots| {
          return Some(k);
        }
        k := k + 1;
      }
      return None;
    }

    /** Appends rows to the slots of a chunk of the table, in the transaction's name. */
    method AppendRows(id: nat, rows: seq<Tuple>) returns (slots: seq<nat>)
      requires Valid() && IsActive(After(engine.history), id)
      modifies engine`activeTransactions, engine`history, engine`stories, engine.storage
      ensures engine.Valid() && slots == NewSlots(|old(engine.storage.chains)|, |rows|)
      ensures |engine.storage.chains| == |old(engine.storage.chains)| + |rows|
      ensures SlotsOf(engine.storage.tableOf, table) == Rows(chunks) + slots
      ensures engine.storage.tableOf == old(engine.storage.tableOf) + Copies(table, |rows|)
      ensures engine.history == old(engine.history) + WriteEvents(id, slots, Somes(rows))
      ensures IsActive(After(engine.history), id)
      ensures engine.StoryOf(id) == old(engine.StoryOf(id)) + Insertions(table, rows)
    {
      engine.SlotsShow();
      ghost var h, tableOf, n := engine.history, engine.storage.tableOf, |engine.storage.chains|;
      slots := NewSlots(|engine.storage.columns|, |rows|);
      engine.Append(id, table, rows);
      SlotsOfCopies(tableOf, table, |rows|);
      StaysActive(h, id, slots, Somes(rows));
    }

    /** How many rows the last chunk holds. */
    function Filled(): (n: nat)
      requires Shape(chunks)
      reads this
      ensures n <= STORAGE_CHUNK_SIZE
    {
      |chunks[|chunks| - 1].slots|
    }

    method ExtendLast(slots: seq<nat>)
      requires Shape(chunks) && Filled() + |slots| <= STORAGE_CHUNK_SIZE
      requires engine.Valid() && SlotsOf(engine.storage.tableOf, table) == Rows(chunks) + slots
      modifies this`chunks
      ensures Valid() && Rows(chunks) == old(Rows(chunks)) + slots
      ensures Filled() == old(Filled()) + |slots|
    {
      RowsExtend(chunks, slots);
      var last := |chunks| - 1;
      chunks := chunks[last := chunks[last].(slots := chunks[last].slots + slots)];
    }

    method AddChunk(slots: seq<nat>)
      requires Shape(chunks) && Filled() == STORAGE_CHUNK_SIZE && 0 < |slots| <= STORAGE_CHUNK_SIZE
      requires engine.Valid() && SlotsOf(engine.storage.tableOf, table) == Rows(chunks) + slots
      modifies this`chunks
      ensures Valid() && Rows(chunks) == old(Rows(chunks)) + slots
    {
      var last := |chunks| - 1;
      var chunk := StorageChunk(chunks[last].start + |chunks[last].slots|, slots);
      RowsNewChunk(chunks, chunk);
      chunks := chunks + [chunk];
    }

    method FillLast(id: nat, rows: seq<Tuple>)
      requires Valid() && IsActive(After(engine.history), id)
      requires Filled() + |rows| <= STORAGE_CHUNK_SIZE
      modifies this`chunks, engine`activeTransactions, engine`history, engine`stories, engine.storage
      ensures Valid() && IsActive(After(engine.history), id)
      ensures |engine.storage.chains| == |old(engine.storage.chains)| + |rows|
      ensures Appended(old(engine.history), engine.history, old(Rows(chunks)), Rows(chunks),
                       old(engine.StoryOf(id)), engine.StoryOf(id), id, table, |old(engine.storage.chains)|, rows)
      ensures Filled() == old(Filled()) + |rows|
      ensures engine.storage.tableOf == old(engine.storage.tableOf) + Copies(table, |rows|)
    {
      var slots := AppendRows(id, rows);
      ExtendLast(slots);
    }

    method NewChunk(id: nat, rows: seq<Tuple>)
      requires Valid() && IsActive(After(engine.history), id)
      requires Filled() == STORAGE_CHUNK_SIZE && 0 < |rows| <= STORAGE_CHUNK_SIZE
      modifies this`chunks, engine`activeTransactions, engine`history, engine`stories, engine.storage
      ensures Valid() && IsActive(After(engine.history), id)
      ensures |engine.storage.chains| == |old(engine.storage.chains)| + |rows|
      ensures Appended(old(engine.history), engine.history, old(Rows(chunks)), Rows(chunks),
                       old(engine.StoryOf(id)), engine.StoryOf(id), id, table, |old(engine.storage.chains)|, rows)
      ensures engine.storage.tableOf == old(engine.storage.tableOf) + Copies(table, |rows|)
    {
      var slots := AppendRows(id, rows);
      AddChunk(slots);
    }

    /** Appends rows to the last chunk, if there are any to append. */
    method FillUp(id: nat, rows: seq<Tuple>)
      requires Valid() && IsActive(After(engine.history), id) && Filled() + |rows| <= STORAGE_CHUNK_SIZE
      modifies this`chunks, engine`activeTransactions, engine`history, engine`stories, engine.storage
      ensures Valid() && IsActive(After(engine.history), id) && Filled() == old(Filled()) + |rows|
      ensures |engine.storage.chains| == |old(engine.storage.chains)| + |rows|
      ensures Grown(old(engine.history), engine.history, old(Rows(chunks)), Rows(chunks),
                    old(engine.StoryOf(id)), engine.StoryOf(id), id, table, |old(engine.storage.chains)|, rows)
      ensures engine.storage.tableOf == old(engine.storage.tableOf) + Copies(table, |rows|)
    {
      AppendedNothing(engine.history, Rows(chunks), engine.StoryOf(id), id, table, |engine.storage.chains|);
      if |rows| > 0 {
        FillLast(id, rows);
        GrownOpens(old(engine.history), engine.history, old(Rows(chunks)), Rows(chunks),
                   old(engine.StoryOf(id)), engine.StoryOf(id), id, table, |old(engine.storage.chains)|, rows);
      }
    }

    /** Starts a new chunk with rows, if there are any left. */
    method Overflow(id: nat, rows: seq<Tuple>)
      requires Valid() && IsActive(After(engine.history), id)
      requires |rows| <= STORAGE_CHUNK_SIZE && (rows != [] ==> Filled() == STORAGE_CHUNK_SIZE)
      modifies this`chunks, engine`activeTransactions, engine`history, engine`stories, engine.storage
      ensures Valid() && IsActive(After(engine.history), id)
      ensures Grown(old(engine.history), engine.history, old(Rows(chunks)), Rows(chunks),
                    old(engine.StoryOf(id)), engine.StoryOf(id), id, table, |old(engine.storage.chains)|, rows)
      ensures engine.storage.tableOf == old(engine.storage.tableOf) + Copies(table, |rows|)
    {
      AppendedNothing(engine.history, Rows(chunks), engine.StoryOf(id), id, table, |engine.storage.chains|);
      if |rows| > 0 {
        NewChunk(id, rows);
        GrownOpens(old(engine.history), engine.history, old(Rows(chunks)), Rows(chunks),
                   old(engine.StoryOf(id)), engine.StoryOf(id), id, table, |old(engine.storage.chains)|, rows);
      }
    }

    /** Appends a vector of rows; what does not fit into the last chunk goes into a new one. */
    method Append(id: nat, rows: seq<Tuple>)
      requires Valid() && IsActive(After(engine.history), id) && |rows| <= STANDARD_VECTOR_SIZE
      modifies this`chunks, engine`activeTransactions, engine`history, engine`stories, engine.storage
      ensures Valid() && IsActive(After(engine.history), id)
      ensures Appended(old(engine.history), engine.history, old(Rows(chunks)), Rows(chunks),
                       old(engine.StoryOf(id)), engine.StoryOf(id), id, table, |old(engine.storage.chains)|, rows)
      ensures engine.storage.tableOf == old(engine.storage.tableOf) + Copies(table, |rows|)
    {
      ghost var h, r, ds, first := engine.history, Rows(chunks), engine.StoryOf(id), |engine.storage.chains|;
      var fits := Min(STORAGE_CHUNK_SIZE - Filled(), |rows|);
      ghost var h', r', ds' := FillAndOverflow(id, rows[..fits], rows[fits..]);
      CopiesTwice(old(engine.storage.tableOf), table, rows, fits);
      AppendedTwice(h, h', engine.history, r, r', Rows(chunks), ds, ds', engine.StoryOf(id), id, table, first, rows, fits);
    }

    /** Appends what fits into the last chunk and then the rest; between the two the history and the rows are as returned. */
    method FillAndOverflow(id: nat, rows: seq<Tuple>, rest: seq<Tuple>) returns (ghost h: History, ghost r: seq<nat>, ghost ds: seq<UB.Deed>)
      requires Valid() && IsActive(After(engine.history), id)
      requires Filled() + |rows| <= STORAGE_CHUNK_SIZE && |rest| <= STORAGE_CHUNK_SIZE
      requires rest != [] ==> Filled() + |rows| == STORAGE_CHUNK_SIZE
      modifies this`chunks, engine`activeTransactions, engine`history, engine`stories, engine.storage
      ensures Valid() && IsActive(After(engine.history), id)
      ensures Grown(old(engine.history), h, old(Rows(chunks)), r, old(engine.StoryOf(id)), ds, id, table, |old(engine.storage.chains)|, rows)
      ensures Grown(h, engine.history, r, Rows(chunks), ds, engine.StoryOf(id), id, table, |old(engine.storage.chains)| + |rows|, rest)
      ensures engine.storage.tableOf == old(engine.storage.tableOf) + Copies(table, |rows|) + Copies(table, |rest|)
    {
      FillUp(id, rows);
      h, r, ds := engine.history, Rows(chunks), engine.StoryOf(id);
      Overflow(id, rest);
    }

    // ----- delete and update -----

    /** The row numbers of one call are rows of one chunk. */
    ghost predicate InOneChunk(numbers: seq<nat>)
      reads this
    {
      forall i :: 0 <= i < |numbers| ==> numbers[i] < |Rows(chunks)| && numbers[i] / STORAGE_CHUNK_SIZE == numbers[0] / STORAGE_CHUNK_SIZE
    }

    /** Each of them comes once. */
    ghost predicate DistinctRows(numbers: seq<nat>)
      reads this
    {
      InOneChunk(numbers) && AllDistinct(numbers)
    }

    /** The slots of rows. */
    ghost function SlotsFor(numbers: seq<nat>): (slots: seq<nat>)
      requires InOneChunk(numbers)
      reads this
      ensures |slots| == |numbers| && forall i :: 0 <= i < |slots| ==> slots[i] == Rows(chunks)[numbers[i]]
    {
      var rows := Rows(chunks);
      seq(|numbers|, i requires 0 <= i < |numbers| && numbers[i] < |rows| => rows[numbers[i]])
    }

    /** Finds the slots of rows of the chunk with the first of them. */
    method FindSlots(numbers: seq<nat>) returns (chunk: Option<nat>, slots: seq<nat>)
      requires Valid() && numbers != [] && (numbers[0] < |Rows(chunks)| ==> InOneChunk(numbers))
      ensures chunk.Some? <==> numbers[0] < |Rows(chunks)|
      ensures chunk.Some? ==> slots == SlotsFor(numbers)
      ensures chunk.Some? ==>
        chunk.value < |chunks| && chunks[chunk.value].start <= numbers[0] < chunks[chunk.value].start + |chunks[chunk.value].slots|
    {
      slots := [];
      chunk := GetChunk(numbers[0]);
      if chunk.None? {
        return chunk, slots;
      }
      var k := chunk.value;
      ghost var all := SlotsFor(numbers);
      var i := 0;
      while i < |numbers|
        invariant 0 <= i <= |numbers| && slots == all[..i]
      {
        EntryOfRow(k, numbers[0], numbers[i]);
        slots := slots + [chunks[k].slots[numbers[i] - chunks[k].start]];
        i := i + 1;
      }
      return chunk, slots;
    }

    /** The assertion of a delete or update compares the place of a row in its chunk with numbers of rows: it holds exactly of
        the rows of the first chunk. */
    lemma AssertionHoldsExactly(k: nat, number: nat)
      requires Shape(chunks) && k < |chunks| && chunks[k].start <= number < chunks[k].start + |chunks[k].slots|
      ensures chunks[k].start <= number - chunks[k].start < chunks[k].start + |chunks[k].slots| <==> number < STORAGE_CHUNK_SIZE
    {
    }

    /** With assertions, the row cannot be deleted or updated. */
    predicate Refuses(number: nat) {
      asserts && STORAGE_CHUNK_SIZE <= number
    }

    /** Whether the assertion ends the process at a row of a chunk. */
    predicate AssertionFails(k: nat, number: nat): (fails: bool)
      requires Shape(chunks) && k < |chunks| && chunks[k].start <= number < chunks[k].start + |chunks[k].slots|
      reads this
      ensures fails == Refuses(number)
    {
      AssertionHoldsExactly(k, number);
      var entry := number - chunks[k].start;
      asserts && !(chunks[k].start <= entry < chunks[k].start + |chunks[k].slots|)
    }

    /** How many rows of a call are written: none where the assertion fails, which happens at the first row or not at all. */
    ghost function Reached(s: State<nat, Tuple>, id: nat, numbers: seq<nat>): (n: nat)
      requires numbers != [] && InOneChunk(numbers)
      reads this
      ensures n <= Accepted(s.cells, id, SlotsFor(numbers)) <= |numbers|
    {
      if Refuses(numbers[0]) then 0 else Accepted(s.cells, id, SlotsFor(numbers))
    }

    ghost function OutcomeOf(s: State<nat, Tuple>, id: nat, numbers: seq<nat>): Outcome
      requires numbers != [] && InOneChunk(numbers)
      reads this
    {
      if Refuses(numbers[0]) then Aborted else if Accepted(s.cells, id, SlotsFor(numbers)) == |numbers| then Done else Conflict
    }

    /** What decides the outcome: the assertion, and whether another running transaction has written one of the rows. */
    lemma OutcomeExactly(id: nat, numbers: seq<nat>)
      requires Valid() && Clean(engine.history) && IsActive(After(engine.history), id) && numbers != [] && InOneChunk(numbers)
      ensures OutcomeOf(After(engine.history), id, numbers)
        == if Refuses(numbers[0]) then Aborted else if NobodyElseWrote(engine.history, id, SlotsFor(numbers)) then Done else Conflict
    {
      StopsExactly(engine.history, id, SlotsFor(numbers));
    }

    /** The slots of rows have base rows. */
    lemma SlotsKnown(numbers: seq<nat>)
      requires Valid() && InOneChunk(numbers)
      ensures forall i :: 0 <= i < |numbers| ==>
        SlotsFor(numbers)[i] in After(engine.history).cells && SlotsFor(numbers)[i] < |engine.storage.columns|
    {
      engine.SlotsShow();
      SlotsListed(engine.storage.tableOf, table);
      var rows := Rows(chunks);
      assert forall i :: 0 <= i < |numbers| ==> rows[numbers[i]] in rows;
    }

    lemma EntryOfRow(k: nat, first: nat, number: nat)
      requires Shape(chunks) && k < |chunks|
      requires chunks[k].start <= first < chunks[k].start + |chunks[k].slots|
      requires number < |Rows(chunks)| && number / STORAGE_CHUNK_SIZE == first / STORAGE_CHUNK_SIZE
      ensures chunks[k].start <= number < chunks[k].start + |chunks[k].slots|
      ensures Rows(chunks)[number] == chunks[k].slots[number - chunks[k].start]
    {
      RowCount(chunks);
      assert first / STORAGE_CHUNK_SIZE == k;
      RowsAt(chunks, k, number - chunks[k].start);
    }

    lemma SlotsDistinct(numbers: seq<nat>)
      requires Valid() && DistinctRows(numbers)
      ensures AllDistinct(SlotsFor(numbers))
    {
      SlotsListed(engine.storage.tableOf, table);
      var rows := Rows(chunks);
      forall i, j | 0 <= i < j < |numbers| ensures SlotsFor(numbers)[i] != SlotsFor(numbers)[j] {
        assert numbers[i] < numbers[j] ==> rows[numbers[i]] < rows[numbers[j]];
        assert numbers[j] < numbers[i] ==> rows[numbers[j]] < rows[numbers[i]];
      }
    }

    /** Deletes rows of one chunk, until the first conflict. */
    method Delete(id: nat, numbers: seq<nat>) returns (outcome: Outcome)
      requires Valid() && IsActive(After(engine.history), id)
      requires numbers != [] && numbers[0] < |Rows(chunks)| ==> InOneChunk(numbers)
      modifies engine`activeTransactions, engine`history, engine`stories, engine.storage
      ensures engine.storage.tableOf == old(engine.storage.tableOf)
      ensures Valid() && chunks == old(chunks)
      ensures numbers == [] ==> outcome == Done && engine.history == old(engine.history)
      ensures numbers != [] && |Rows(chunks)| <= numbers[0] ==> outcome == OutOfRange && engine.history == old(engine.history)
      ensures numbers != [] && numbers[0] < |Rows(chunks)| ==>
        var s := After(old(engine.history));
        && outcome == OutcomeOf(s, id, numbers)
        && engine.history == old(engine.history)
             + EraseEvents(s, id, SlotsFor(numbers), old(engine.storage.columns))[..Reached(s, id, numbers)]
    {
      if |numbers| == 0 {
        return Done;
      }
      var chunk, slots := FindSlots(numbers);
      if chunk.None? {
        return OutOfRange;
      }
      if AssertionFails(chunk.value, numbers[0]) {
        assert engine.history + [] == engine.history;
        return Aborted;
      }
      SlotsKnown(numbers);
      var done := engine.Delete(id, slots);
      return if done then Done else Conflict;
    }

    /** Updates columns of rows of one chunk. */
    method Update(id: nat, numbers: seq<nat>, columnIds: seq<nat>, updates: seq<seq<int>>) returns (outcome: Outcome)
      requires Valid() && IsActive(After(engine.history), id)
      requires |updates| == |columnIds| && forall j :: 0 <= j < |updates| ==> |updates[j]| == |numbers|
      requires numbers != [] && numbers[0] < |Rows(chunks)| ==>
        && InOneChunk(numbers)
        && forall i, j :: 0 <= i < |numbers| && 0 <= j < |columnIds| ==>
             columnIds[j] < |DataOf(engine.storage.columns, SlotsFor(numbers)[i])|
      modifies engine`activeTransactions, engine`history, engine`stories, engine.storage
      ensures engine.storage.tableOf == old(engine.storage.tableOf)
      ensures Valid() && chunks == old(chunks)
      ensures numbers == [] ==> outcome == Done && engine.history == old(engine.history)
      ensures numbers != [] && |Rows(chunks)| <= numbers[0] ==> outcome == OutOfRange && engine.history == old(engine.history)
      ensures numbers != [] && numbers[0] < |Rows(chunks)| ==>
        var s, slots, columns := After(old(engine.history)), SlotsFor(numbers), old(engine.storage.columns);
        && outcome == OutcomeOf(s, id, numbers)
        && engine.history == old(engine.history) + (if outcome == Done then StoreEvents(s, id, slots, columns, columnIds, updates)
                                                    else TouchEvents(s, id, slots, columns)[..Reached(s, id, numbers)])
    {
      if |numbers| == 0 {
        return Done;
      }
      var chunk, slots := FindSlots(numbers);
      if chunk.None? {
        return OutOfRange;
      }
      if AssertionFails(chunk.value, numbers[0]) {
        assert engine.history + [] == engine.history;
        return Aborted;
      }
      SlotsKnown(numbers);
      var done := engine.Update(id, slots, columnIds, updates);
      return if done then Done else Conflict;
    }

    /** What live rows of different numbers mean to an update. */
    lemma LiveRows(numbers: seq<nat>)
      requires Valid() && DistinctRows(numbers) && AllLive(After(engine.history), SlotsFor(numbers))
      ensures AllDistinct(SlotsFor(numbers))
      ensures forall i :: 0 <= i < |numbers| ==>
        DataOf(engine.storage.columns, SlotsFor(numbers)[i]) == After(engine.history).cells[SlotsFor(numbers)[i]].cur.value
    {
      SlotsDistinct(numbers);
      SlotsKnown(numbers);
      forall i | 0 <= i < |numbers|
        ensures DataOf(engine.storage.columns, SlotsFor(numbers)[i]) == After(engine.history).cells[SlotsFor(numbers)[i]].cur.value
      {
        engine.SlotShows(SlotsFor(numbers)[i]);
      }
    }

    /** Deletes live rows, each of them once. */
    method DeleteLive(id: nat, numbers: seq<nat>) returns (outcome: Outcome)
      requires Valid() && IsActive(After(engine.history), id)
      requires numbers != [] && DistinctRows(numbers) && AllLive(After(engine.history), SlotsFor(numbers))
      modifies engine`activeTransactions, engine`history, engine`stories, engine.storage
      ensures engine.storage.tableOf == old(engine.storage.tableOf)
      ensures Valid() && chunks == old(chunks)
      ensures var s := After(old(engine.history));
        var n := Reached(s, id, numbers);
        && outcome == OutcomeOf(s, id, numbers)
        && engine.history == old(engine.history) + WriteEvents(id, SlotsFor(numbers)[..n], Nones(n))
    {
      LiveRows(numbers);
      ghost var s, slots := After(engine.history), SlotsFor(numbers);
      LiveRowsAreWritten(s, id, slots, engine.storage.columns);
      FirstWrites(id, slots, Nones(|slots|), Reached(s, id, numbers));
      outcome := Delete(id, numbers);
    }

    /** Updates live rows, each of them once. */
    method UpdateLive(id: nat, numbers: seq<nat>, columnIds: seq<nat>, updates: seq<seq<int>>) returns (outcome: Outcome)
      requires Valid() && IsActive(After(engine.history), id)
      requires numbers != [] && DistinctRows(numbers) && AllLive(After(engine.history), SlotsFor(numbers))
      requires |updates| == |columnIds| && forall j :: 0 <= j < |updates| ==> |updates[j]| == |numbers|
      requires forall i, j :: 0 <= i < |numbers| && 0 <= j < |columnIds| ==>
        columnIds[j] < |After(engine.history).cells[SlotsFor(numbers)[i]].cur.value|
      modifies engine`activeTransactions, engine`history, engine`stories, engine.storage
      ensures engine.storage.tableOf == old(engine.storage.tableOf)
      ensures Valid() && chunks == old(chunks)
      ensures var s, slots := After(old(engine.history)), SlotsFor(numbers);
        var n := Reached(s, id, numbers);
        && outcome == OutcomeOf(s, id, numbers)
        && engine.history == old(engine.history) + (if outcome == Done then WriteEvents(id, slots, Updated(s, slots, columnIds, updates))
                                                    else WriteEvents(id, slots[..n], Contents(s, slots)[..n]))
    {
      LiveRows(numbers);
      ghost var s, slots := After(engine.history), SlotsFor(numbers);
      LiveRowsAreWritten(s, id, slots, engine.storage.columns);
      LiveRowsAreUpdated(s, id, slots, engine.storage.columns, columnIds, updates);
      FirstWrites(id, slots, Contents(s, slots), Reached(s, id, numbers));
      outcome := Update(id, numbers, columnIds, updates);
    }

    lemma FirstWrites(id: nat, slots: seq<nat>, values: seq<Option<Tuple>>, n: nat)
      requires |slots| == |values| && n <= |slots|
      ensures WriteEvents(id, slots, values)[..n] == WriteEvents(id, slots[..n], values[..n])
      ensures Nones(|slots|)[..n] == Nones(n)
    {
    }

    // ----- scan -----

    ghost predicate InRange(structure: ScanStructure)
      reads this
    {
      structure.chunk.Some? ==>
        structure.chunk.value < |chunks| && structure.offset <= |chunks[structure.chunk.value].slots|
    }

    /** The number of the next row of a scan. */
    ghost function Position(structure: ScanStructure): nat
      requires InRange(structure)
      reads this
    {
      if structure.chunk.None? then |Rows(chunks)| else chunks[structure.chunk.value].start + structure.offset
    }

    ghost function SceneOf(id: nat): Scene
      requires IsActive(After(engine.history), id)
      reads this, engine
    {
      Scene(After(engine.history).cells, engine.ReaderOf(id), Rows(chunks))
    }

    method InitializeScan() returns (structure: ScanStructure)
      requires Shape(chunks)
      ensures InRange(structure) && Position(structure) == 0
    {
      structure := ScanStructure(Some(0), 0);
    }

    lemma SlotOfRow(k: nat, j: nat)
      requires Valid() && k < |chunks| && j < |chunks[k].slots|
      ensures chunks[k].start + j < |Rows(chunks)| && Rows(chunks)[chunks[k].start + j] == chunks[k].slots[j]
      ensures chunks[k].slots[j] in After(engine.history).cells
    {
      RowsAt(chunks, k, j);
      SlotsListed(engine.storage.tableOf, table);
      engine.SlotsShow();
      assert Rows(chunks)[chunks[k].start + j] in Rows(chunks);
    }

    /** What the entries of a window emit. */
    lemma EntryIs(id: nat, k: nat, j: nat)
      requires Valid() && IsActive(After(engine.history), id) && k < |chunks| && j < |chunks[k].slots|
      ensures var number, s, slot := chunks[k].start + j, SceneOf(id), chunks[k].slots[j];
        number < |s.rows| && s.rows[number] == slot && slot in s.cells && number % STORAGE_CHUNK_SIZE == j
    {
      SlotOfRow(k, j);
    }

    /** Whether an entry has versions, and whether its base row is deleted. */
    method Flags(ghost id: nat, k: nat, j: nat) returns (hasVersion: bool, isDeleted: bool)
      requires Valid() && IsActive(After(engine.history), id) && k < |chunks| && j < |chunks[k].slots|
      ensures var number, s := chunks[k].start + j, SceneOf(id);
        && number < |s.rows|
        && (hasVersion <==> CellAt(s.cells, s.rows[number]).undo != [])
        && (isDeleted <==> CellAt(s.cells, s.rows[number]).cur.None?)
    {
      EntryIs(id, k, j);
      var slot := chunks[k].slots[j];
      engine.SlotShows(slot);
      hasVersion := engine.storage.versionPointers[slot].Some?;
      isDeleted := engine.storage.deleted[slot];
    }

    /** Looks at the flags of one entry. */
    method SiftOne(ghost id: nat, k: nat, offset: nat, i: nat, regular: seq<nat>, versions: seq<nat>)
        returns (regular': seq<nat>, versions': seq<nat>)
      requires Valid() && IsActive(After(engine.history), id)
      requires k < |chunks| && offset + i < |chunks[k].slots|
      requires Sifted(SceneOf(id), chunks[k].start + offset, regular, versions, i)
      ensures Sifted(SceneOf(id), chunks[k].start + offset, regular', versions', i + 1)
    {
      var hasVersion, isDeleted := Flags(id, k, offset + i);
      versions' := if hasVersion then versions + [i] else versions;
      regular' := if !(isDeleted || hasVersion) then regular + [i] else regular;
      SiftStep(SceneOf(id), chunks[k].start + offset, regular, versions, i, hasVersion, isDeleted, regular', versions');
    }

    /** Splits the entries of a window into live rows without versions and rows with versions. */
    method Sift(ghost id: nat, k: nat, offset: nat, end: nat) returns (regular: seq<nat>, versions: seq<nat>)
      requires Valid() && IsActive(After(engine.history), id)
      requires k < |chunks| && offset + end <= |chunks[k].slots|
      ensures Sifted(SceneOf(id), chunks[k].start + offset, regular, versions, end)
    {
      regular, versions := [], [];
      SiftedNothing(SceneOf(id), chunks[k].start + offset);
      var i := 0;
      while i < end
        invariant 0 <= i <= end && Sifted(SceneOf(id), chunks[k].start + offset, regular, versions, i)
      {
        regular, versions := SiftOne(id, k, offset, i, regular, versions);
        i := i + 1;
      }
    }

    /** Reads one entry of a window. */
    method ReadEntry(id: nat, k: nat, j: nat) returns (row: Option<Tuple>, inBase: bool)
      requires Valid() && IsActive(After(engine.history), id) && k < |chunks| && j < |chunks[k].slots|
      ensures Judged(SceneOf(id), chunks[k].start + j, row, inBase, j)
    {
      EntryIs(id, k, j);
      row, inBase := engine.ReadRow(id, chunks[k].slots[j]);
    }

    /** Follows the version pointer of one entry. */
    method ChaseOne(id: nat, k: nat, offset: nat, ghost end: nat, ghost regular: seq<nat>, ghost done: seq<nat>, e: nat,
                    found: seq<nat>, alternates: seq<Found>) returns (found': seq<nat>, alternates': seq<Found>)
      requires Valid() && IsActive(After(engine.history), id)
      requires k < |chunks| && offset + end <= |chunks[k].slots| && e < end
      requires Chased(SceneOf(id), chunks[k].start + offset, regular, done, found, alternates, end)
      ensures Chased(SceneOf(id), chunks[k].start + offset, regular, done + [e], found', alternates', end)
    {
      var row, inBase := ReadEntry(id, k, offset + e);
      found' := if inBase && row.Some? then found + [e] else found;
      alternates' := if !inBase && row.Some? then alternates + [FromVersion(offset + e, row.value)] else alternates;
      ChaseStep(SceneOf(id), chunks[k].start + offset, regular, done, found, alternates, end, e, offset + e, row, inBase, found', alternates');
    }

    /** Follows the version pointers. */
    method Chase(id: nat, k: nat, offset: nat, ghost end: nat, regular: seq<nat>, versions: seq<nat>)
        returns (regular': seq<nat>, alternates: seq<Found>)
      requires Valid() && IsActive(After(engine.history), id)
      requires k < |chunks| && offset + end <= |chunks[k].slots| && Entries(versions, end)
      requires Chased(SceneOf(id), chunks[k].start + offset, regular, [], regular, [], end)
      ensures Chased(SceneOf(id), chunks[k].start + offset, regular, versions, regular', alternates, end)
    {
      regular', alternates := regular, [];
      var i := 0;
      while i < |versions|
        invariant 0 <= i <= |versions|
        invariant Chased(SceneOf(id), chunks[k].start + offset, regular, versions[..i], regular', alternates, end)
      {
        assert versions[i] in versions && versions[..i + 1] == versions[..i] + [versions[i]];
        regular', alternates := ChaseOne(id, k, offset, end, regular, versions[..i], versions[i], regular', alternates);
        i := i + 1;
      }
      assert versions[..i] == versions;
    }

    /** Copies a row out of the base table. */
    method FetchRow(ghost id: nat, k: nat, j: nat) returns (row: Tuple)
      requires Valid() && IsActive(After(engine.history), id) && k < |chunks| && j < |chunks[k].slots|
      requires BaseAt(SceneOf(id), chunks[k].start + j)
      ensures EmissionAt(SceneOf(id), chunks[k].start + j) == multiset{FromBase(chunks[k].start + j, row)}
    {
      EntryIs(id, k, j);
      BaseEmits(SceneOf(id), chunks[k].start + j);
      engine.SlotShows(chunks[k].slots[j]);
      row := engine.storage.columns[chunks[k].slots[j]];
    }

    /** Copies the rows seen in the base table. */
    method Fetch(ghost id: nat, k: nat, offset: nat, ghost end: nat, regular: seq<nat>) returns (found: seq<Found>)
      requires Valid() && IsActive(After(engine.history), id)
      requires k < |chunks| && offset + end <= |chunks[k].slots|
      requires forall e :: e in regular ==> e < end && BaseAt(SceneOf(id), chunks[k].start + offset + e)
      ensures |found| == |regular|
      ensures multiset(found) == Emitted(SceneOf(id), Numbers(chunks[k].start + offset, regular))
    {
      ghost var s, p := SceneOf(id), chunks[k].start + offset;
      found := [];
      EmissionsNone(s);
      assert Numbers(p, []) == [];
      var i := 0;
      while i < |regular|
        invariant 0 <= i <= |regular| && |found| == i
        invariant multiset(found) == Emitted(s, Numbers(p, regular[..i]))
      {
        var e := regular[i];
        assert e in regular && regular[..i + 1] == regular[..i] + [e];
        NumbersPush(s, p, regular[..i], e);
        var row := FetchRow(id, k, offset + e);
        found := found + [FromBase(chunks[k].start + offset + e, row)];
        i := i + 1;
      }
      assert regular[..i] == regular;
    }

    /** Scans one window of a chunk. */
    method ScanWindow(id: nat, k: nat, offset: nat, end: nat) returns (found: seq<Found>)
      requires Valid() && IsActive(After(engine.history), id)
      requires k < |chunks| && offset + end <= |chunks[k].slots|
      ensures |found| <= end
      ensures multiset(found) == Emitted(SceneOf(id), Range(chunks[k].start + offset, chunks[k].start + offset + end))
    {
      ghost var s, p := SceneOf(id), chunks[k].start + offset;
      var regular, versions := Sift(id, k, offset, end);
      ChasedNothing(s, p, regular, versions, end);
      var alternates: seq<Found> := [];
      ghost var sifted := regular;
      if |regular| < end {
        regular, alternates := Chase(id, k, offset, end, regular, versions);
        ChasedAreBase(s, p, sifted, versions, regular, alternates, end);
      } else {
        assert versions == [];
      }
      var rest := Fetch(id, k, offset, end, regular);
      found := alternates + rest;
      WindowSum(s, p, sifted, versions, regular, alternates, rest, end);
    }

    /** The next window of a scan. */
    function Advance(structure: ScanStructure): (next: ScanStructure)
      requires Shape(chunks) && InRange(structure) && structure.chunk.Some?
      reads this
      ensures InRange(next)
      ensures Position(next) == Position(structure) + Min(STANDARD_VECTOR_SIZE, |chunks[structure.chunk.value].slots| - structure.offset)
      ensures Position(next) <= |Rows(chunks)| && Windows(next) < Windows(structure)
    {
      var k, offset := structure.chunk.value, structure.offset;
      NextChunk(k);
      RowCount(chunks);
      if offset + STANDARD_VECTOR_SIZE >= |chunks[k].slots|
      then ScanStructure(if k + 1 < |chunks| then Some(k + 1) else None, 0)
      else ScanStructure(Some(k), offset + STANDARD_VECTOR_SIZE)
    }

    /** A scan goes on by vectors of 1024 rows, through all chunks, with a shorter one at the end of the table only. */
    lemma WindowsAreVectors(structure: ScanStructure)
      requires Shape(chunks) && InRange(structure) && structure.chunk.Some? && Position(structure) % 1024 == 0
      requires structure.offset < |chunks[structure.chunk.value].slots|
      ensures Position(Advance(structure)) == if Position(structure) + 1024 <= |Rows(chunks)| then Position(structure) + 1024 else |Rows(chunks)|
    {
      var k := structure.chunk.value;
      NextChunk(k);
      RowCount(chunks);
      WholeVectors(k, Position(structure), structure.offset);
    }

    lemma WholeVectors(k: nat, position: nat, offset: nat)
      requires Shape(chunks) && k < |chunks| && position == chunks[k].start + offset && position % 1024 == 0
      ensures offset % 1024 == 0 && chunks[k].start == 1024 * (10 * k)
    {
      assert chunks[k].start == k * STORAGE_CHUNK_SIZE;
    }

    /** Bounds the number of windows that are left. */
    ghost function Windows(structure: ScanStructure): nat
      requires Shape(chunks) && InRange(structure)
      reads this
    {
      if structure.chunk.None? then 0
      else (|chunks| - structure.chunk.value) * (STORAGE_CHUNK_SIZE + 1) - structure.offset
    }

    /** Scans the window that the structure points to, and goes on to the next. */
    method ScanStep(id: nat, structure: ScanStructure) returns (found: seq<Found>, next: ScanStructure)
      requires Valid() && IsActive(After(engine.history), id) && InRange(structure) && structure.chunk.Some?
      ensures InRange(next) && Position(structure) + |found| <= Position(next) <= |Rows(chunks)|
      ensures |found| <= STANDARD_VECTOR_SIZE && Windows(next) < Windows(structure)
      ensures multiset(found) == Emitted(SceneOf(id), Range(Position(structure), Position(next)))
    {
      var k, offset := structure.chunk.value, structure.offset;
      var end := Min(STANDARD_VECTOR_SIZE, |chunks[k].slots| - offset);
      found := ScanWindow(id, k, offset, end);
      next := Advance(structure);
    }

    /** Scans up to a vector of rows; an empty result means that the table has been scanned. */
    method Scan(id: nat, structure: ScanStructure) returns (found: seq<Found>, structure': ScanStructure)
      requires Valid() && IsActive(After(engine.history), id) && InRange(structure)
      ensures InRange(structure') && Position(structure) + |found| <= Position(structure') <= |Rows(chunks)|
      ensures |found| <= STANDARD_VECTOR_SIZE
      ensures multiset(found) == Emitted(SceneOf(id), Range(Position(structure), Position(structure')))
      ensures found == [] ==> structure'.chunk.None?
    {
      ghost var s := SceneOf(id);
      found, structure' := [], structure;
      PositionInTable(structure);
      EmissionsNone(s);
      assert Range(Position(structure), Position(structure)) == [];
      while structure'.chunk.Some?
        invariant InRange(structure') && Position(structure) <= Position(structure') <= |Rows(chunks)|
        invariant found == [] && Emitted(s, Range(Position(structure), Position(structure'))) == multiset{}
        decreases Windows(structure')
      {
        ghost var p := Position(structure');
        found, structure' := ScanStep(id, structure');
        RangeJoin(s, Position(structure), p, Position(structure'));
        if |found| > 0 {
          return;
        }
      }
    }

    /** A scan of the whole table: every row that the transaction sees comes out exactly once, and nothing else. */
    method ScanAll(id: nat) returns (all: seq<Found>)
      requires Valid() && IsActive(After(engine.history), id)
      ensures multiset(all) == Emitted(SceneOf(id), Range(0, |Rows(chunks)|))
      ensures Clean(engine.history) ==>
        && id in SpecRun(engine.history).views
        && multiset(all) == SnapshotRows(SpecRun(engine.history).views[id], SceneOf(id), Range(0, |SlotsOf(engine.storage.tableOf, table)|))
    {
      ghost var s := SceneOf(id);
      var structure := InitializeScan();
      var found;
      found, structure := Scan(id, structure);
      all := found;
      while found != []
        invariant InRange(structure) && Position(structure) <= |Rows(chunks)|
        invariant multiset(all) == Emitted(s, Range(0, Position(structure)))
        invariant found == [] ==> structure.chunk.None?
        decreases |Rows(chunks)| - Position(structure), |found|
      {
        ghost var p := Position(structure);
        found, structure := Scan(id, structure);
        RangeJoin(s, 0, p, Position(structure));
        all := all + found;
      }
      if Clean(engine.history) {
        SceneIsSnapshot(id);
      }
    }

    lemma SceneIsSnapshot(id: nat)
      requires IsActive(After(engine.history), id) && Clean(engine.history)
      ensures id in SpecRun(engine.history).views
      ensures forall numbers :: Emitted(SceneOf(id), numbers) == SnapshotRows(SpecRun(engine.history).views[id], SceneOf(id), numbers)
    {
      var h := engine.history;
      AfterIsRun(h);
      var i := IndexOf(After(h).active, id);
      ScanReadsSnapshot(h, i, SceneOf(id), []);
      forall numbers ensures Emitted(SceneOf(id), numbers) == SnapshotRows(SpecRun(h).views[id], SceneOf(id), numbers) {
        ScanReadsSnapshot(h, i, SceneOf(id), numbers);
      }
    }

    lemma PositionInTable(structure: ScanStructure)
      requires Shape(chunks) && InRange(structure)
      ensures Position(structure) <= |Rows(chunks)|
    {
      RowCount(chunks);
    }

    lemma NextChunk(k: nat)
      requires Shape(chunks) && k < |chunks|
      ensures chunks[k].start + |chunks[k].slots| == if k + 1 < |chunks| then chunks[k + 1].start else |Rows(chunks)|
    {
      RowCount(chunks);
    }
  }
}
