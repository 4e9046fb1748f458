/** The undo buffer of a transaction: commit with logging, rollback, and cleanup.

  Each of them is one loop over the entries, proved to do to every chain at once what the
  transition system says. */
module UndoBuffer {
  import opened Versions
  import opened TableStorage

  datatype UndoEntry = TupleEntry(rec: nat) | QueryEntry(query: string)

  datatype LogRecord = Insert(table: nat, rows: seq<Tuple>) | Query(query: string) | Flush

  /** The records of the tuple entries, oldest first. */
  function Tuples(entries: seq<UndoEntry>): seq<nat> {
    if entries == [] then [] else
    Tuples(entries[..|entries| - 1]) + (if entries[|entries| - 1].TupleEntry? then [entries[|entries| - 1].rec] else [])
  }

  ghost predicate Ascending(rs: seq<nat>) {
    forall i, j :: 0 <= i < j < |rs| ==> rs[i] < rs[j]
  }

  /** The numbers name exactly the linked records that carry the stamp, each once and in order. */
  ghost predicate OwnsAll(records: seq<VersionInformation>, origins: seq<Origin>, chains: seq<seq<nat>>, own: seq<nat>, stamp: nat) {
    && Ascending(own)
    && (forall r :: r in own ==> LinkedIn(origins, chains, r) && r < |records| && records[r].versionNumber == stamp)
    && (forall s, p :: 0 <= s < |chains| && 0 <= p < |chains[s]| ==>
          (chains[s][p] < |records| && records[chains[s][p]].versionNumber == stamp ==> chains[s][p] in own))
  }

  ghost predicate Owns(storage: Storage, entries: seq<UndoEntry>, stamp: nat)
    reads storage`records, storage`origins, storage`chains
  {
    OwnsAll(storage.records, storage.origins, storage.chains, Tuples(entries), stamp)
  }

  ghost predicate SlotsOk(records: seq<VersionInformation>, origins: seq<Origin>, chains: seq<seq<nat>>) {
    forall s, p :: 0 <= s < |chains| && 0 <= p < |chains[s]| ==>
      && chains[s][p] < |records| && chains[s][p] < |origins|
      && origins[chains[s][p]].slot == s
      && forall q :: p < q < |chains[s]| ==> chains[s][q] < chains[s][p]
  }

  /** Only records with the stamp have left the chains, and version numbers are as before. */
  ghost predicate OnlyLost(records: seq<VersionInformation>, records': seq<VersionInformation>, origins: seq<Origin>,
                           chains: seq<seq<nat>>, chains': seq<seq<nat>>, stamp: nat) {
    && |records'| == |records| == |origins| && |chains'| == |chains|
    && (forall r :: 0 <= r < |records| ==>
          records'[r].versionNumber == records[r].versionNumber && records'[r].tupleData == records[r].tupleData)
    && (forall r :: 0 <= r < |records| && LinkedIn(origins, chains, r) && records[r].versionNumber != stamp ==> LinkedIn(origins, chains', r))
    && (forall s, p :: 0 <= s < |chains'| && 0 <= p < |chains'[s]| ==> chains'[s][p] in chains[s])
  }

  lemma OnlyLostCut(records: seq<VersionInformation>, records': seq<VersionInformation>, origins: seq<Origin>, chains: seq<seq<nat>>,
                    stamp: nat, info: nat, p: nat)
    requires |records'| == |records| == |origins|
    requires forall r :: 0 <= r < |records| ==>
      records'[r].versionNumber == records[r].versionNumber && records'[r].tupleData == records[r].tupleData
    requires LinkedIn(origins, chains, info) && records[info].versionNumber == stamp
    requires p < |chains[origins[info].slot]| && chains[origins[info].slot][p] == info
    ensures OnlyLost(records, records', origins, chains, chains[origins[info].slot := Cut(chains[origins[info].slot], p)], stamp)
  {
    var slot := origins[info].slot;
    var chains' := chains[slot := Cut(chains[slot], p)];
    forall r | 0 <= r < |records| && LinkedIn(origins, chains, r) && records[r].versionNumber != stamp ensures LinkedIn(origins, chains', r) {
      if origins[r].slot == slot {
        var q :| 0 <= q < |chains[slot]| && chains[slot][q] == r;
        assert chains'[slot][if q < p then q else q - 1] == r;
      }
    }
  }

  lemma OnlyLostTwice(records: seq<VersionInformation>, records': seq<VersionInformation>, records'': seq<VersionInformation>,
                      origins: seq<Origin>, chains: seq<seq<nat>>, chains': seq<seq<nat>>, chains'': seq<seq<nat>>, stamp: nat)
    requires OnlyLost(records, records', origins, chains, chains', stamp)
    requires OnlyLost(records', records'', origins, chains', chains'', stamp)
    ensures OnlyLost(records, records'', origins, chains, chains'', stamp)
  {
    forall s, p | 0 <= s < |chains''| && 0 <= p < |chains''[s]| ensures chains''[s][p] in chains[s] {
      assert chains''[s][p] in chains'[s];
      var q :| 0 <= q < |chains'[s]| && chains'[s][q] == chains''[s][p];
      assert chains'[s][q] in chains[s];
    }
    forall r | 0 <= r < |records| && LinkedIn(origins, chains, r) && records[r].versionNumber != stamp ensures LinkedIn(origins, chains'', r) {
      assert LinkedIn(origins, chains', r) && records'[r].versionNumber != stamp;
    }
  }

  /** What another transaction owns is not touched. */
  lemma OnlyLostKeepsOwner(records: seq<VersionInformation>, records': seq<VersionInformation>, origins: seq<Origin>,
                           chains: seq<seq<nat>>, chains': seq<seq<nat>>, stamp: nat, own: seq<nat>, other: nat)
    requires OnlyLost(records, records', origins, chains, chains', stamp)
    requires OwnsAll(records, origins, chains, own, other) && other != stamp
    ensures OwnsAll(records', origins, chains', own, other)
  {
    forall s, p | 0 <= s < |chains'| && 0 <= p < |chains'[s]|
      ensures chains'[s][p] < |records'| && records'[chains'[s][p]].versionNumber == other ==> chains'[s][p] in own
    {
      var q :| 0 <= q < |chains[s]| && chains[s][q] == chains'[s][p];
    }
  }

  lemma ValidSlots(storage: Storage)
    requires storage.Valid()
    ensures SlotsOk(storage.records, storage.origins, storage.chains)
  {
    forall s, p | 0 <= s < |storage.chains| && 0 <= p < |storage.chains[s]|
      ensures storage.chains[s][p] < |storage.records| && storage.origins[storage.chains[s][p]].slot == s
    {
      assert InPlace(storage.records, storage.origins, storage.chains[s], s, storage.Base(s), p);
    }
  }

  /** Removing one owned record from its chain removes it from the set of owned records. */
  lemma OwnsCut(records: seq<VersionInformation>, records': seq<VersionInformation>, origins: seq<Origin>, chains: seq<seq<nat>>,
                own: seq<nat>, own': seq<nat>, stamp: nat, info: nat, p: nat)
    requires SlotsOk(records, origins, chains) && OwnsAll(records, origins, chains, own, stamp)
    requires own == own' + [info] || own == [info] + own'
    requires |records'| == |records| && forall r :: 0 <= r < |records| ==> records'[r].versionNumber == records[r].versionNumber
    requires LinkedIn(origins, chains, info) && p < |chains[origins[info].slot]| && chains[origins[info].slot][p] == info
    ensures OwnsAll(records', origins, chains[origins[info].slot := Cut(chains[origins[info].slot], p)], own', stamp)
  {
    var slot := origins[info].slot;
    var chains' := chains[slot := Cut(chains[slot], p)];
    var k := if own == own' + [info] then 0 else 1;
    assert own[if k == 0 then |own'| else 0] == info;
    assert forall j :: 0 <= j < |own'| ==> own'[j] == own[j + k];
    assert info !in own';
    forall r | r in own' ensures LinkedIn(origins, chains', r) && r in own {
      assert exists j :: 0 <= j < |own'| && own'[j] == r;
      CutKeepsLinked(origins, chains, slot, p, r);
    }
    forall s, q | 0 <= s < |chains'| && 0 <= q < |chains'[s]|
      ensures records'[chains'[s][q]].versionNumber == stamp ==> chains'[s][q] in own'
      ensures chains'[s][q] < |records'|
    {
      CutAt(chains, slot, p, s, q);
      assert chains'[s][q] in own ==> chains'[s][q] == info || chains'[s][q] in own';
    }
  }

  /** Taking a record out of a chain leaves the others linked. */
  lemma CutKeepsLinked(origins: seq<Origin>, chains: seq<seq<nat>>, slot: nat, p: nat, r: nat)
    requires slot < |chains| && p < |chains[slot]| && LinkedIn(origins, chains, r) && r != chains[slot][p]
    ensures LinkedIn(origins, chains[slot := Cut(chains[slot], p)], r)
  {
    if origins[r].slot == slot {
      var q :| 0 <= q < |chains[slot]| && chains[slot][q] == r;
      assert Cut(chains[slot], p)[if q < p then q else q - 1] == r;
    }
  }

  lemma CutAt(chains: seq<seq<nat>>, slot: nat, p: nat, s: nat, q: nat)
    requires slot < |chains| && p < |chains[slot]| && s < |chains|
    requires q < |chains[slot := Cut(chains[slot], p)][s]|
    requires forall i, j :: 0 <= i < j < |chains[slot]| ==> chains[slot][j] < chains[slot][i]
    ensures var e := chains[slot := Cut(chains[slot], p)][s][q];
      && (exists k :: 0 <= k < |chains[s]| && chains[s][k] == e)
      && (s == slot ==> e != chains[slot][p])
  {
    var k := if s == slot && p <= q then q + 1 else q;
    assert chains[slot := Cut(chains[slot], p)][s][q] == chains[s][k];
  }

  lemma {:induction false} TuplesPrefix(entries: seq<UndoEntry>, i: nat)
    requires i <= |entries|
    ensures Tuples(entries[..i]) <= Tuples(entries)
  {
    if i < |entries| {
      TuplesPrefix(entries[..|entries| - 1], i);
      assert entries[..|entries| - 1][..i] == entries[..i];
    } else {
      assert entries[..i] == entries;
    }
  }

  // ----- rollback -----

  /** The newest record of the transaction that is still linked heads its chain. */
  lemma LastOwnedIsHead(storage: Storage, entries: seq<UndoEntry>, id: nat)
    requires storage.Valid() && Uncommitted(id) && Owns(storage, entries, id)
    requires forall s :: 0 <= s < |storage.chains| ==> WellFormed(storage.CellOf(s))
    requires Tuples(entries) != []
    ensures var info := Tuples(entries)[|Tuples(entries)| - 1];
            storage.IsLinked(info) && storage.chains[storage.origins[info].slot][0] == info
  {
    var own := Tuples(entries);
    var info := own[|own| - 1];
    assert info in own;
    var s := storage.origins[info].slot;
    var chain, cell := storage.chains[s], storage.CellOf(s);
    assert ChainOk(storage.records, storage.origins, chain, s, storage.Base(s));
    var p :| 0 <= p < |chain| && chain[p] == info;
    assert cell.undo[p].stamp == id;
    assert cell.undo[0].stamp == id;
    assert chain[0] in own;
  }

  method Rollback(storage: Storage, entries: seq<UndoEntry>, id: nat)
    requires storage.Valid() && Uncommitted(id) && Owns(storage, entries, id)
    requires forall s :: 0 <= s < |storage.chains| ==> WellFormed(storage.CellOf(s))
    modifies storage
    ensures storage.Valid() && storage.origins == old(storage.origins) && storage.tableOf == old(storage.tableOf)
    ensures |storage.records| == old(|storage.records|) && |storage.chains| == old(|storage.chains|)
    ensures OnlyLost(old(storage.records), storage.records, storage.origins, old(storage.chains), storage.chains, id)
    ensures forall s :: 0 <= s < |storage.chains| ==> storage.CellOf(s) == Revert(old(storage.CellOf(s)), id)
  {
    var i := |entries|;
    assert entries[..i] == entries;
    while i > 0
      invariant 0 <= i <= |entries|
      invariant storage.Valid() && storage.origins == old(storage.origins) && storage.tableOf == old(storage.tableOf)
      invariant |storage.records| == old(|storage.records|) && |storage.chains| == old(|storage.chains|)
      invariant OnlyLost(old(storage.records), storage.records, storage.origins, old(storage.chains), storage.chains, id)
      invariant Owns(storage, entries[..i], id)
      invariant forall s :: 0 <= s < |storage.chains| ==> WellFormed(storage.CellOf(s))
      invariant forall s :: 0 <= s < |storage.chains| ==> Revert(storage.CellOf(s), id) == Revert(old(storage.CellOf(s)), id)
    {
      match entries[i - 1] {
        case TupleEntry(info) =>
          assert entries[..i][..i - 1] == entries[..i - 1];
          LastOwnedIsHead(storage, entries[..i], id);
          ghost var records, chains := storage.records, storage.chains;
          UndoLast(storage, entries[..i], id, info);
          OnlyLostTwice(old(storage.records), records, storage.records, storage.origins, old(storage.chains), chains, storage.chains, id);
        case QueryEntry(_) =>
          assert entries[..i][..i - 1] == entries[..i - 1];
          assert Tuples(entries[..i]) == Tuples(entries[..i - 1]);
      }
      i := i - 1;
    }
    forall s | 0 <= s < |storage.chains| ensures !OwnedBy(storage.CellOf(s), id) {
      if storage.chains[s] != [] {
        assert storage.chains[s][0] !in Tuples(entries[..0]);
      }
    }
  }

  /** One round of the rollback loop. */
  method UndoLast(storage: Storage, ghost entries: seq<UndoEntry>, ghost id: nat, info: nat)
    requires storage.Valid() && Uncommitted(id) && Owns(storage, entries, id)
    requires entries != [] && entries[|entries| - 1] == TupleEntry(info)
    requires storage.IsLinked(info) && storage.chains[storage.origins[info].slot][0] == info
    requires forall s :: 0 <= s < |storage.chains| ==> WellFormed(storage.CellOf(s))
    modifies storage
    ensures storage.Valid() && storage.origins == old(storage.origins) && storage.tableOf == old(storage.tableOf)
    ensures |storage.records| == old(|storage.records|) && |storage.chains| == old(|storage.chains|)
    ensures OnlyLost(old(storage.records), storage.records, storage.origins, old(storage.chains), storage.chains, id)
    ensures Owns(storage, entries[..|entries| - 1], id)
    ensures forall s :: 0 <= s < |storage.chains| ==> WellFormed(storage.CellOf(s))
    ensures forall s :: 0 <= s < |storage.chains| ==> Revert(storage.CellOf(s), id) == Revert(old(storage.CellOf(s)), id)
  {
    ghost var slot := storage.origins[info].slot;
    ghost var rest := Tuples(entries[..|entries| - 1]);
    assert Tuples(entries) == rest + [info];
    PopWellFormed(storage.CellOf(slot));
    ValidSlots(storage);
    storage.Undo(info);
    assert Cut(old(storage.chains)[slot], 0) == old(storage.chains)[slot][1..];
    OwnsCut(old(storage.records), storage.records, storage.origins, old(storage.chains), Tuples(entries), rest, id, info, 0);
    OnlyLostCut(old(storage.records), storage.records, storage.origins, old(storage.chains), id, info, 0);
  }

  // ----- cleanup -----

  lemma {:induction false} TuplesCons(entries: seq<UndoEntry>)
    requires entries != []
    ensures Tuples(entries) == (if entries[0].TupleEntry? then [entries[0].rec] else []) + Tuples(entries[1..])
  {
    var n := |entries| - 1;
    if n > 0 {
      TuplesCons(entries[..n]);
      assert entries[..n][1..] == entries[1..][..n - 1];
    }
  }

  ghost predicate NoneOlder(storage: Storage, commitId: nat)
    requires storage.Valid()
    reads storage
  {
    forall s :: 0 <= s < |storage.chains| ==> NoneOlderIn(storage.CellOf(s), commitId)
  }

  ghost predicate NoneOlderIn(c: Cell<Tuple>, commitId: nat) {
    WellFormed(c) && forall p :: 0 <= p < |c.undo| ==> commitId <= c.undo[p].stamp
  }

  /** What a cleanup does to one slot. */
  lemma LastDropped(c: Cell<Tuple>, d: Cell<Tuple>, commitId: nat)
    requires NoneOlderIn(c, commitId) && c.undo != [] && c.undo[|c.undo| - 1].stamp == commitId
    requires d == Cell(c.cur, Cut(c.undo, |c.undo| - 1))
    ensures NoneOlderIn(d, commitId) && Purge(d, commitId + 1) == Purge(c, commitId + 1)
  {
    assert Cut(c.undo, |c.undo| - 1) == c.undo[..|c.undo| - 1];
    KeepDropLast(c, commitId + 1);
  }

  lemma BelowIsOwned(storage: Storage, entries: seq<UndoEntry>, commitId: nat, s: nat, p: nat)
    requires storage.Valid() && Owns(storage, entries, commitId) && NoneOlder(storage, commitId)
    requires s < |storage.chains| && p < |storage.chains[s]| && storage.CellOf(s).undo[p].stamp == commitId
    ensures forall q :: p < q < |storage.chains[s]| ==> storage.chains[s][q] in Tuples(entries)
  {
    forall q | p < q < |storage.chains[s]| ensures storage.chains[s][q] in Tuples(entries) {
      assert storage.CellOf(s).undo[q].stamp == commitId;
    }
  }

  lemma FirstIsLeast(own: seq<nat>)
    requires Ascending(own)
    ensures forall r :: r in own ==> own[0] <= r
  {
  }

  /** The oldest linked record of the longest committed transaction is the oldest of its chain. */
  lemma FirstOwnedIsOldest(storage: Storage, entries: seq<UndoEntry>, commitId: nat)
    requires storage.Valid() && Owns(storage, entries, commitId) && NoneOlder(storage, commitId)
    requires Tuples(entries) != []
    ensures var info := Tuples(entries)[0];
            && storage.IsLinked(info)
            && var chain := storage.chains[storage.origins[info].slot];
            chain[|chain| - 1] == info
  {
    var own := Tuples(entries);
    var info := own[0];
    assert info in own;
    var s := storage.origins[info].slot;
    var chain := storage.chains[s];
    assert ChainOk(storage.records, storage.origins, chain, s, storage.Base(s));
    var p: nat :| p < |chain| && chain[p] == info;
    BelowIsOwned(storage, entries, commitId, s, p);
    FirstIsLeast(own);
  }

  method UnlinkOwned(storage: Storage, ghost own: seq<nat>, ghost own': seq<nat>, ghost stamp: nat, info: nat, ghost p: nat)
    requires storage.Valid() && OwnsAll(storage.records, storage.origins, storage.chains, own, stamp)
    requires own == [info] + own' && storage.IsLinked(info)
    requires p == |storage.chains[storage.origins[info].slot]| - 1 && storage.chains[storage.origins[info].slot][p] == info
    modifies storage
    ensures storage.Valid() && storage.origins == old(storage.origins) && storage.tableOf == old(storage.tableOf)
    ensures |storage.records| == old(|storage.records|) && |storage.chains| == old(|storage.chains|)
    ensures OnlyLost(old(storage.records), storage.records, storage.origins, old(storage.chains), storage.chains, stamp)
    ensures OwnsAll(storage.records, storage.origins, storage.chains, own', stamp)
    ensures storage.CellOf(storage.origins[info].slot)
         == Cell(old(storage.CellOf(storage.origins[info].slot)).cur, Cut(old(storage.CellOf(storage.origins[info].slot)).undo, p))
    ensures forall s :: 0 <= s < |storage.chains| && s != storage.origins[info].slot ==> storage.CellOf(s) == old(storage.CellOf(s))
  {
    assert info in own;
    ValidSlots(storage);
    storage.Cleanup(info, p);
    OwnsCut(old(storage.records), storage.records, storage.origins, old(storage.chains), own, own', stamp, info, p);
    OnlyLostCut(old(storage.records), storage.records, storage.origins, old(storage.chains), stamp, info, p);
  }

  /** One round of the cleanup loop. */
  method CleanupFirst(storage: Storage, ghost entries: seq<UndoEntry>, ghost commitId: nat, info: nat)
    requires storage.Valid() && Owns(storage, entries, commitId) && NoneOlder(storage, commitId)
    requires entries != [] && entries[0] == TupleEntry(info)
    modifies storage
    ensures storage.Valid() && storage.origins == old(storage.origins) && storage.tableOf == old(storage.tableOf)
    ensures |storage.records| == old(|storage.records|) && |storage.chains| == old(|storage.chains|)
    ensures OnlyLost(old(storage.records), storage.records, storage.origins, old(storage.chains), storage.chains, commitId)
    ensures Owns(storage, entries[1..], commitId) && NoneOlder(storage, commitId)
    ensures forall s :: 0 <= s < |storage.chains| ==> Purge(storage.CellOf(s), commitId + 1) == Purge(old(storage.CellOf(s)), commitId + 1)
  {
    TuplesCons(entries);
    assert Tuples(entries)[0] == info && info in Tuples(entries);
    FirstOwnedIsOldest(storage, entries, commitId);
    ghost var slot := storage.origins[info].slot;
    ghost var p := |storage.chains[slot]| - 1;
    ghost var cell := storage.CellOf(slot);
    assert cell.undo[p].stamp == commitId;
    UnlinkOwned(storage, Tuples(entries), Tuples(entries[1..]), commitId, info, p);
    LastDropped(cell, storage.CellOf(slot), commitId);
    forall s | 0 <= s < |storage.chains|
      ensures NoneOlderIn(storage.CellOf(s), commitId) && Purge(storage.CellOf(s), commitId + 1) == Purge(old(storage.CellOf(s)), commitId + 1)
    {
      assert NoneOlderIn(old(storage.CellOf(s)), commitId);
      assert s != slot ==> storage.CellOf(s) == old(storage.CellOf(s));
    }
  }

  /** Unlinks everything a transaction wrote that committed before any other still linked one. */
  method Cleanup(storage: Storage, entries: seq<UndoEntry>, ghost commitId: nat)
    requires storage.Valid() && Owns(storage, entries, commitId) && NoneOlder(storage, commitId)
    modifies storage
    ensures storage.Valid() && storage.origins == old(storage.origins) && storage.tableOf == old(storage.tableOf)
    ensures |storage.records| == old(|storage.records|) && |storage.chains| == old(|storage.chains|)
    ensures OnlyLost(old(storage.records), storage.records, storage.origins, old(storage.chains), storage.chains, commitId)
    ensures forall s :: 0 <= s < |storage.chains| ==> storage.CellOf(s) == Purge(old(storage.CellOf(s)), commitId + 1)
  {
    var i := 0;
    assert entries[i..] == entries;
    while i < |entries|
      invariant 0 <= i <= |entries|
      invariant storage.Valid() && storage.origins == old(storage.origins) && storage.tableOf == old(storage.tableOf)
      invariant |storage.records| == old(|storage.records|) && |storage.chains| == old(|storage.chains|)
      invariant OnlyLost(old(storage.records), storage.records, storage.origins, old(storage.chains), storage.chains, commitId)
      invariant Owns(storage, entries[i..], commitId) && NoneOlder(storage, commitId)
      invariant forall s :: 0 <= s < |storage.chains| ==>
        Purge(storage.CellOf(s), commitId + 1) == Purge(old(storage.CellOf(s)), commitId + 1)
    {
      assert entries[i..][1..] == entries[i + 1..];
      match entries[i] {
        case TupleEntry(info) =>
          ghost var records, chains := storage.records, storage.chains;
          CleanupFirst(storage, entries[i..], commitId, info);
          OnlyLostTwice(old(storage.records), records, storage.records, storage.origins, old(storage.chains), chains, storage.chains, commitId);
        case QueryEntry(_) =>
          TuplesCons(entries[i..]);
          assert Tuples(entries[i..]) == Tuples(entries[i + 1..]);
      }
      i := i + 1;
    }
    assert entries[i..] == [];
    NothingLeft(storage, commitId);
  }

  lemma NothingLeft(storage: Storage, commitId: nat)
    requires storage.Valid() && Owns(storage, [], commitId) && NoneOlder(storage, commitId)
    ensures forall s :: 0 <= s < |storage.chains| ==> Purge(storage.CellOf(s), commitId + 1) == storage.CellOf(s)
  {
    forall s | 0 <= s < |storage.chains| ensures Purge(storage.CellOf(s), commitId + 1) == storage.CellOf(s) {
      var cell := storage.CellOf(s);
      assert NoneOlderIn(cell, commitId);
      forall p | 0 <= p < |cell.undo| ensures cell.undo[p].stamp != commitId {
        assert storage.chains[s][p] !in Tuples([]);
      }
      NothingToPurge(cell, commitId + 1);
    }
  }

  lemma NothingToPurge(c: Cell<Tuple>, floor: nat)
    requires WellFormed(c) && forall p :: 0 <= p < |c.undo| ==> floor <= c.undo[p].stamp
    ensures Purge(c, floor) == c
  {
    KeepIsPrefix(c.undo, floor);
    assert c.undo != [] ==> floor <= c.undo[|c.undo| - 1].stamp;
  }

  // ----- commit and logging -----

  /** What the log says about one table: its inserted rows, and the logged queries between them. */
  datatype Item = RowItem(row: Tuple) | QueryItem(query: string)

  function RowItems(rows: seq<Tuple>): (items: seq<Item>)
    ensures |items| == |rows|
  {
    seq(|rows|, i requires 0 <= i < |rows| => RowItem(rows[i]))
  }

  function RecordItems(r: LogRecord, table: nat): seq<Item> {
    match r
    case Insert(t, rows) => if t == table then RowItems(rows) else []
    case Query(q) => [QueryItem(q)]
    case Flush => []
  }

  function LogItems(log: seq<LogRecord>, table: nat): seq<Item> {
    if log == [] then [] else LogItems(log[..|log| - 1], table) + RecordItems(log[|log| - 1], table)
  }

  /** What an undo entry says: an insertion record stands for the row that was inserted. */
  ghost function EntryItem(records: seq<VersionInformation>, origins: seq<Origin>, tableOf: seq<nat>, e: UndoEntry, table: nat): seq<Item> {
    match e
    case QueryEntry(q) => [QueryItem(q)]
    case TupleEntry(r) =>
      if r < |records| && r < |origins| && records[r].tupleData.None?
         && origins[r].slot < |tableOf| && tableOf[origins[r].slot] == table
      then [RowItem(origins[r].row)] else []
  }

  /** What the undo buffer says about one table, in the order it happened. */
  ghost function EntryItems(records: seq<VersionInformation>, origins: seq<Origin>, tableOf: seq<nat>, entries: seq<UndoEntry>, table: nat): seq<Item> {
    if entries == [] then [] else
    EntryItems(records, origins, tableOf, entries[..|entries| - 1], table)
      + EntryItem(records, origins, tableOf, entries[|entries| - 1], table)
  }

  /** What a transaction has done that the log must tell: rows inserted into tables, and statements to run again. */
  datatype Deed = Inserted(table: nat, row: Tuple) | Asked(query: string)

  /** The part of a transaction's story that concerns one table. */
  function Story(deeds: seq<Deed>, table: nat): seq<Item> {
    if deeds == [] then [] else
    Story(deeds[..|deeds| - 1], table) +
      match deeds[|deeds| - 1]
      case Inserted(t, row) => if t == table then [RowItem(row)] else []
      case Asked(q) => [QueryItem(q)]
  }

  lemma StoryJoin(deeds: seq<Deed>, more: seq<Deed>, table: nat)
    requires |more| <= 1
    ensures Story(deeds + more, table) == Story(deeds, table) + Story(more, table)
  {
    if more == [] {
      assert deeds + more == deeds;
    } else {
      assert (deeds + more)[..|deeds|] == deeds;
    }
  }

  lemma TuplesPush(entries: seq<UndoEntry>, e: UndoEntry)
    ensures Tuples(entries + [e]) == Tuples(entries) + if e.TupleEntry? then [e.rec] else []
  {
    assert (entries + [e])[..|entries|] == entries;
  }

  lemma EntriesPush(records: seq<VersionInformation>, origins: seq<Origin>, tableOf: seq<nat>, entries: seq<UndoEntry>, e: UndoEntry, table: nat)
    ensures Tuples(entries + [e]) == Tuples(entries) + if e.TupleEntry? then [e.rec] else []
    ensures EntryItems(records, origins, tableOf, entries + [e], table)
         == EntryItems(records, origins, tableOf, entries, table) + EntryItem(records, origins, tableOf, e, table)
  {
    assert (entries + [e])[..|entries|] == entries;
  }

  ghost predicate Known(records: seq<VersionInformation>, origins: seq<Origin>, tableOf: seq<nat>, own: seq<nat>) {
    forall r :: r in own ==> r < |records| && r < |origins| && origins[r].slot < |tableOf|
  }

  /** New records and slots may have come; what was there says the same. */
  ghost predicate Grown(records: seq<VersionInformation>, records': seq<VersionInformation>, origins: seq<Origin>, origins': seq<Origin>,
                        tableOf: seq<nat>, tableOf': seq<nat>) {
    && |records| <= |records'| && origins <= origins' && tableOf <= tableOf'
    && (forall r :: 0 <= r < |records| ==> records'[r].tupleData == records[r].tupleData)
  }

  lemma {:induction false} ItemsFrame(records: seq<VersionInformation>, records': seq<VersionInformation>, origins: seq<Origin>, origins': seq<Origin>,
                                      tableOf: seq<nat>, tableOf': seq<nat>, entries: seq<UndoEntry>, table: nat)
    requires Grown(records, records', origins, origins', tableOf, tableOf')
    requires Known(records, origins, tableOf, Tuples(entries))
    ensures EntryItems(records', origins', tableOf', entries, table) == EntryItems(records, origins, tableOf, entries, table)
  {
    if entries != [] {
      var n := |entries| - 1;
      assert forall r :: r in Tuples(entries[..n]) ==> r in Tuples(entries);
      ItemsFrame(records, records', origins, origins', tableOf, tableOf', entries[..n], table);
      assert entries[n].TupleEntry? ==> entries[n].rec in Tuples(entries);
    }
  }

  /** Every insertion record carries between one row and a full vector of rows. */
  predicate WellSized(log: seq<LogRecord>) {
    forall i :: 0 <= i < |log| && log[i].Insert? ==> 1 <= |log[i].rows| <= STANDARD_VECTOR_SIZE
  }

  /** No flush marker yet. */
  predicate Unflushed(log: seq<LogRecord>) {
    forall i :: 0 <= i < |log| ==> !log[i].Flush?
  }

  /** A flush marker at the end, and nowhere else. */
  predicate OneFlush(log: seq<LogRecord>) {
    log != [] && log[|log| - 1] == Flush && Unflushed(log[..|log| - 1])
  }

  function Pending(appends: map<nat, seq<Tuple>>, table: nat): seq<Tuple> {
    if table in appends then appends[table] else []
  }

  lemma LogPush(log: seq<LogRecord>, r: LogRecord, table: nat)
    ensures LogItems(log + [r], table) == LogItems(log, table) + RecordItems(r, table)
  {
    assert (log + [r])[..|log|] == log;
  }

  lemma RowItemsJoin(a: seq<Tuple>, b: seq<Tuple>)
    ensures RowItems(a + b) == RowItems(a) + RowItems(b)
  {
  }

  /** Writes the pending rows of every table, in no particular order of tables. */
  method FlushAppends(log: seq<LogRecord>, appends: map<nat, seq<Tuple>>) returns (log': seq<LogRecord>)
    requires WellSized(log) && Unflushed(log) && forall t :: t in appends ==> 1 <= |appends[t]| <= STANDARD_VECTOR_SIZE
    ensures WellSized(log') && Unflushed(log')
    ensures forall t :: LogItems(log', t) == LogItems(log, t) + RowItems(Pending(appends, t))
  {
    log' := log;
    FlushedNone(log, appends);
    var todo := appends.Keys;
    while todo != {}
      invariant todo <= appends.Keys && WellSized(log') && Unflushed(log') && FlushedBut(log, log', appends, todo)
      decreases todo
    {
      var t :| t in todo;
      FlushedOne(log, log', appends, todo, t);
      log' := log' + [Insert(t, appends[t])];
      todo := todo - {t};
    }
    FlushedAll(log, log', appends);
  }

  /** What the log says when the rows of some tables are still to be written.  The counter keeps the predicate closed
      where only its preservation matters. */
  ghost predicate FlushedBut(log: seq<LogRecord>, log': seq<LogRecord>, appends: map<nat, seq<Tuple>>, todo: set<nat>, n: nat := CLOSED)
    decreases |log'|, n
  {
    if n > 0 then FlushedBut(log, log', appends, todo, n - 1) else
    forall t :: LogItems(log', t) == LogItems(log, t) + (if t in todo then [] else RowItems(Pending(appends, t)))
  }

  lemma {:induction false} OpenFlushed(log: seq<LogRecord>, log': seq<LogRecord>, appends: map<nat, seq<Tuple>>, todo: set<nat>, n: nat := CLOSED)
    ensures FlushedBut(log, log', appends, todo, n) == FlushedBut(log, log', appends, todo, 0)
    decreases n
  {
    if n > 0 { OpenFlushed(log, log', appends, todo, n - 1); }
  }

  lemma FlushedNone(log: seq<LogRecord>, appends: map<nat, seq<Tuple>>)
    ensures FlushedBut(log, log, appends, appends.Keys)
  {
    OpenFlushed(log, log, appends, appends.Keys);
    forall t ensures LogItems(log, t) == LogItems(log, t) + (if t in appends.Keys then [] else RowItems(Pending(appends, t))) {
      assert t !in appends ==> RowItems(Pending(appends, t)) == [];
    }
  }

  lemma FlushedAll(log: seq<LogRecord>, log': seq<LogRecord>, appends: map<nat, seq<Tuple>>)
    requires FlushedBut(log, log', appends, {})
    ensures forall t :: LogItems(log', t) == LogItems(log, t) + RowItems(Pending(appends, t))
  {
    OpenFlushed(log, log', appends, {});
  }

  lemma FlushedOne(log: seq<LogRecord>, log': seq<LogRecord>, appends: map<nat, seq<Tuple>>, todo: set<nat>, t: nat)
    requires t in todo && t in appends && FlushedBut(log, log', appends, todo)
    ensures FlushedBut(log, log' + [Insert(t, appends[t])], appends, todo - {t})
  {
    var more := log' + [Insert(t, appends[t])];
    OpenFlushed(log, log', appends, todo);
    OpenFlushed(log, more, appends, todo - {t});
    forall u ensures LogItems(more, u) == LogItems(log, u) + (if u in todo - {t} then [] else RowItems(Pending(appends, u))) {
      FlushedOneTable(log, log', appends, todo, t, u);
    }
  }

  lemma FlushedOneTable(log: seq<LogRecord>, log': seq<LogRecord>, appends: map<nat, seq<Tuple>>, todo: set<nat>, t: nat, u: nat)
    requires t in todo && t in appends
    requires LogItems(log', u) == LogItems(log, u) + (if u in todo then [] else RowItems(Pending(appends, u)))
    ensures LogItems(log' + [Insert(t, appends[t])], u) == LogItems(log, u) + (if u in todo - {t} then [] else RowItems(Pending(appends, u)))
  {
    LogPush(log', Insert(t, appends[t]), u);
  }

  /** Follows the newer neighbours up to the record that knows the slot. */
  method FindSlot(storage: Storage, info: nat) returns (slot: nat)
    requires storage.Valid() && storage.IsLinked(info)
    ensures slot == storage.origins[info].slot
  {
    ghost var s := storage.origins[info].slot;
    ghost var chain := storage.chains[s];
    assert ChainOk(storage.records, storage.origins, chain, s, storage.Base(s));
    ghost var p: nat :| p < |chain| && chain[p] == info;
    assert InPlace(storage.records, storage.origins, chain, s, storage.Base(s), p);
    var prev := info;
    while storage.records[prev].link.Newer?
      invariant p < |chain| && chain[p] == prev && InPlace(storage.records, storage.origins, chain, s, storage.Base(s), p)
      decreases p
    {
      prev := storage.records[prev].link.rec;
      p := p - 1;
      assert InPlace(storage.records, storage.origins, chain, s, storage.Base(s), p);
    }
    slot := storage.records[prev].link.slot;
  }

  /** The inserted row is still right above its insertion record, whatever happened to the row since. */
  method InsertedRow(storage: Storage, info: nat) returns (row: Tuple)
    requires storage.Valid() && storage.IsLinked(info) && storage.records[info].tupleData.None?
    ensures row == storage.origins[info].row
  {
    ghost var s := storage.origins[info].slot;
    ghost var chain := storage.chains[s];
    assert ChainOk(storage.records, storage.origins, chain, s, storage.Base(s));
    ghost var p: nat :| p < |chain| && chain[p] == info;
    assert InPlace(storage.records, storage.origins, chain, s, storage.Base(s), p);
    match storage.records[info].link {
      case InChunk(slot) => row := storage.columns[slot];
      case Newer(rec) => row := storage.records[rec].tupleData.value;
    }
  }

  /** Makes room for one more row of the table: a full vector goes to the log first. */
  method PendingChunk(log: seq<LogRecord>, appends: map<nat, seq<Tuple>>, table: nat)
      returns (log': seq<LogRecord>, chunk: seq<Tuple>)
    requires WellSized(log) && Unflushed(log) && forall t :: t in appends ==> 1 <= |appends[t]| <= STANDARD_VECTOR_SIZE
    ensures WellSized(log') && Unflushed(log') && |chunk| < STANDARD_VECTOR_SIZE
    ensures forall t :: t != table ==> LogItems(log', t) == LogItems(log, t)
    ensures LogItems(log', table) + RowItems(chunk) == LogItems(log, table) + RowItems(Pending(appends, table))
  {
    log', chunk := log, [];
    if table in appends {
      chunk := appends[table];
      if |chunk| == STANDARD_VECTOR_SIZE {
        forall t { LogPush(log, Insert(table, chunk), t); }
        log' := log + [Insert(table, chunk)];
        chunk := [];
      }
    }
  }

  /** Adds the row of an insertion record to the pending rows of its table. */
  method WriteTuple(storage: Storage, info: nat, log: seq<LogRecord>, appends: map<nat, seq<Tuple>>)
      returns (log': seq<LogRecord>, appends': map<nat, seq<Tuple>>)
    requires storage.Valid() && storage.IsLinked(info)
    requires WellSized(log) && Unflushed(log) && forall t :: t in appends ==> 1 <= |appends[t]| <= STANDARD_VECTOR_SIZE
    ensures WellSized(log') && Unflushed(log') && forall t :: t in appends' ==> 1 <= |appends'[t]| <= STANDARD_VECTOR_SIZE
    ensures forall t :: LogItems(log', t) + RowItems(Pending(appends', t))
                     == LogItems(log, t) + RowItems(Pending(appends, t)) + EntryItem(storage.records, storage.origins, storage.tableOf, TupleEntry(info), t)
  {
    ValidSlots(storage);
    log', appends' := log, appends;
    if storage.records[info].tupleData.Some? {
      return;
    }
    var slot := FindSlot(storage, info);
    var table := storage.tableOf[slot];
    var chunk;
    log', chunk := PendingChunk(log, appends, table);
    var row := InsertedRow(storage, info);
    appends' := appends[table := chunk + [row]];
    RowItemsJoin(chunk, [row]);
    assert RowItems([row]) == [RowItem(row)] == EntryItem(storage.records, storage.origins, storage.tableOf, TupleEntry(info), table);
    forall t ensures LogItems(log', t) + RowItems(Pending(appends', t))
                  == LogItems(log, t) + RowItems(Pending(appends, t)) + EntryItem(storage.records, storage.origins, storage.tableOf, TupleEntry(info), t)
    {
      if t == table {
        assert LogItems(log', t) + (RowItems(chunk) + [RowItem(row)]) == LogItems(log', t) + RowItems(chunk) + [RowItem(row)];
      } else {
        assert EntryItem(storage.records, storage.origins, storage.tableOf, TupleEntry(info), t) == [];
      }
    }
  }

  /** Stamps and logs one entry. */
  method CommitEntry(storage: Storage, entry: UndoEntry, commitId: nat, log: seq<LogRecord>, appends: map<nat, seq<Tuple>>)
      returns (log': seq<LogRecord>, appends': map<nat, seq<Tuple>>)
    requires storage.Valid() && (entry.TupleEntry? ==> storage.IsLinked(entry.rec))
    requires WellSized(log) && Unflushed(log) && forall t :: t in appends ==> 1 <= |appends[t]| <= STANDARD_VECTOR_SIZE
    modifies storage`records
    ensures storage.Valid()
    ensures storage.records == if entry.TupleEntry? then old(storage.records)[entry.rec := old(storage.records)[entry.rec].(versionNumber := commitId)]
                               else old(storage.records)
    ensures WellSized(log') && Unflushed(log') && forall t :: t in appends' ==> 1 <= |appends'[t]| <= STANDARD_VECTOR_SIZE
    ensures forall t :: LogItems(log', t) + RowItems(Pending(appends', t))
                     == LogItems(log, t) + RowItems(Pending(appends, t)) + EntryItem(old(storage.records), storage.origins, storage.tableOf, entry, t)
  {
    match entry {
      case TupleEntry(info) =>
        ValidSlots(storage);
        storage.Stamp(info, commitId);
        log', appends' := WriteTuple(storage, info, log, appends);
      case QueryEntry(query) =>
        log' := FlushAppends(log, appends);
        forall t { LogPush(log', Query(query), t); }
        log', appends' := log' + [Query(query)], map[];
    }
  }

  /** The arena after every record of one transaction got the commit id. */
  ghost predicate Stamped(records: seq<VersionInformation>, records': seq<VersionInformation>, own: seq<nat>, commitId: nat) {
    && |records'| == |records|
    && forall r :: 0 <= r < |records| ==>
         records'[r] == if r in own then records[r].(versionNumber := commitId) else records[r]
  }

  lemma EntryLinked(storage: Storage, entries: seq<UndoEntry>, k: nat, own: seq<nat>)
    requires k < |entries| && own == Tuples(entries)
    requires forall r :: r in own ==> storage.IsLinked(r)
    ensures entries[k].TupleEntry? ==> storage.IsLinked(entries[k].rec)
  {
    assert entries[..k + 1][..k] == entries[..k];
    TuplesPrefix(entries, k + 1);
    assert entries[k].TupleEntry? ==> entries[k].rec in Tuples(entries[..k + 1]);
  }

  lemma StampedOneMore(records: seq<VersionInformation>, now: seq<VersionInformation>, next: seq<VersionInformation>,
                       origins: seq<Origin>, tableOf: seq<nat>, entries: seq<UndoEntry>, k: nat, commitId: nat)
    requires k < |entries| && Stamped(records, now, Tuples(entries[..k]), commitId)
    requires entries[k].TupleEntry? ==> entries[k].rec < |now|
    requires next == if entries[k].TupleEntry? then now[entries[k].rec := now[entries[k].rec].(versionNumber := commitId)] else now
    ensures Stamped(records, next, Tuples(entries[..k + 1]), commitId)
    ensures forall t :: (EntryItems(records, origins, tableOf, entries[..k + 1], t)
      == EntryItems(records, origins, tableOf, entries[..k], t) + EntryItem(now, origins, tableOf, entries[k], t))
  {
    assert entries[..k + 1][..k] == entries[..k];
    forall t ensures EntryItem(now, origins, tableOf, entries[k], t) == EntryItem(records, origins, tableOf, entries[k], t) {
      if entries[k].TupleEntry? { assert now[entries[k].rec].tupleData == records[entries[k].rec].tupleData; }
    }
  }

  /** The log so far and the rows still waiting tell exactly what the entries say. */
  ghost predicate Logged(records: seq<VersionInformation>, origins: seq<Origin>, tableOf: seq<nat>, entries: seq<UndoEntry>,
                         log: seq<LogRecord>, appends: map<nat, seq<Tuple>>) {
    forall t :: LogItems(log, t) + RowItems(Pending(appends, t)) == EntryItems(records, origins, tableOf, entries, t)
  }

  lemma LoggedOneMore(records: seq<VersionInformation>, now: seq<VersionInformation>, next: seq<VersionInformation>,
                      origins: seq<Origin>, tableOf: seq<nat>, entries: seq<UndoEntry>, k: nat, commitId: nat,
                      log: seq<LogRecord>, appends: map<nat, seq<Tuple>>, log': seq<LogRecord>, appends': map<nat, seq<Tuple>>)
    requires k < |entries| && Stamped(records, now, Tuples(entries[..k]), commitId)
    requires entries[k].TupleEntry? ==> entries[k].rec < |now|
    requires next == if entries[k].TupleEntry? then now[entries[k].rec := now[entries[k].rec].(versionNumber := commitId)] else now
    requires Logged(records, origins, tableOf, entries[..k], log, appends)
    requires forall t :: LogItems(log', t) + RowItems(Pending(appends', t))
                      == LogItems(log, t) + RowItems(Pending(appends, t)) + EntryItem(now, origins, tableOf, entries[k], t)
    ensures Stamped(records, next, Tuples(entries[..k + 1]), commitId)
    ensures Logged(records, origins, tableOf, entries[..k + 1], log', appends')
  {
    StampedOneMore(records, now, next, origins, tableOf, entries, k, commitId);
  }

  lemma LoggedAll(records: seq<VersionInformation>, origins: seq<Origin>, tableOf: seq<nat>, entries: seq<UndoEntry>,
                  log: seq<LogRecord>, appends: map<nat, seq<Tuple>>, log': seq<LogRecord>)
    requires Logged(records, origins, tableOf, entries, log, appends) && WellSized(log') && Unflushed(log')
    requires forall t :: LogItems(log', t) == LogItems(log, t) + RowItems(Pending(appends, t))
    ensures WellSized(log' + [Flush]) && OneFlush(log' + [Flush])
    ensures forall t :: LogItems(log' + [Flush], t) == EntryItems(records, origins, tableOf, entries, t)
  {
    forall t ensures LogItems(log' + [Flush], t) == EntryItems(records, origins, tableOf, entries, t) { LogPush(log', Flush, t); }
    assert (log' + [Flush])[..|log'|] == log';
  }

  /** Stamps every record of the transaction and writes its log records, ending with the flush marker. */
  method Commit(storage: Storage, entries: seq<UndoEntry>, ghost id: nat, commitId: nat) returns (log: seq<LogRecord>)
    requires storage.Valid() && Owns(storage, entries, id)
    modifies storage`records
    ensures storage.Valid() && Stamped(old(storage.records), storage.records, Tuples(entries), commitId)
    ensures WellSized(log) && OneFlush(log)
    ensures forall t :: LogItems(log, t) == EntryItems(old(storage.records), storage.origins, storage.tableOf, entries, t)
  {
    log := [];
    var appends: map<nat, seq<Tuple>> := map[];
    ghost var records := storage.records;
    var k := 0;
    while k < |entries|
      invariant 0 <= k <= |entries|
      invariant storage.Valid() && Stamped(records, storage.records, Tuples(entries[..k]), commitId)
      invariant forall r :: r in Tuples(entries) ==> storage.IsLinked(r)
      invariant WellSized(log) && Unflushed(log) && forall t :: t in appends ==> 1 <= |appends[t]| <= STANDARD_VECTOR_SIZE
      invariant Logged(records, storage.origins, storage.tableOf, entries[..k], log, appends)
    {
      EntryLinked(storage, entries, k, Tuples(entries));
      ghost var now, log', appends' := storage.records, log, appends;
      log, appends := CommitEntry(storage, entries[k], commitId, log, appends);
      LoggedOneMore(records, now, storage.records, storage.origins, storage.tableOf, entries, k, commitId, log', appends', log, appends);
      k := k + 1;
    }
    assert entries[..k] == entries;
    ghost var log' := log;
    log := FlushAppends(log, appends);
    LoggedAll(records, storage.origins, storage.tableOf, entries, log', appends, log);
    log := log + [Flush];
  }
}
