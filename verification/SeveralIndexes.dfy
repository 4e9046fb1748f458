/** A table with several unique indexes: how new keys are brought into all of them.

  When one index refuses, the ones before it are reverted.  An append removes as many nodes as it has rows, also the ones
  that a NULL left out; an update removes as many as it has counted for the refusing index, which is none. */
module SeveralIndexes {
  import opened Versions
  import opened Mvcc
  import opened TableStorage
  import opened Engine
  import opened Uniqueness
  import opened IndexTree
  import opened UniqueIndex
  import opened UniqueTable
  import DataTable

  /** All indexes have the keys; one has refused; or a node was to be removed that is not there. */
  datatype Fate = Brought | Refused | NullFollowed

  ghost predicate Standing(indexes: seq<UniqueIndex>)
    reads indexes
  {
    && (forall j, k :: 0 <= j < k < |indexes| ==> indexes[j] != indexes[k])
    && forall k :: 0 <= k < |indexes| ==> indexes[k].Valid()
  }

  /** The indexes are those of one table, and know its rows only. */
  ghost predicate Belong(indexes: seq<UniqueIndex>, trees: seq<Tree>, table: DataTable.DataTable)
    requires |trees| == |indexes|
    reads table
  {
    forall k :: 0 <= k < |indexes| ==> indexes[k].table == table && RowsKnown(trees[k], |DataTable.Rows(table.chunks)|)
  }

  ghost function Trees(indexes: seq<UniqueIndex>): (trees: seq<Tree>)
    reads indexes
    ensures |trees| == |indexes| && forall k :: 0 <= k < |trees| ==> trees[k] == indexes[k].tree
  {
    seq(|indexes|, k requires 0 <= k < |indexes| reads indexes => indexes[k].tree)
  }

  /** An index has taken its keys, node by node. */
  ghost predicate Took(t: Tree, t': Tree, keys: seq<Option<Key>>, rows: seq<nat>, added: seq<Option<nat>>, trees: seq<Tree>) {
    && |added| == |keys| == |rows| && Stages(trees, keys, rows, added) && trees[0] == t && trees[|added|] == t'
    && Entries(t') == Entries(t) + BatchEntries(keys, rows)
  }

  /** The first indexes have taken their keys; the others are as they were. */
  ghost predicate FirstTook(was: seq<Tree>, now: seq<Tree>, keys: seq<seq<Option<Key>>>, rows: seq<nat>, added: seq<seq<Option<nat>>>,
                            stages: seq<seq<Tree>>, n: nat) {
    && n <= |was| == |now| == |keys| && n <= |added| && n <= |stages|
    && (forall k :: 0 <= k < n ==> Took(was[k], now[k], keys[k], rows, added[k], stages[k]))
    && forall k :: n <= k < |was| ==> now[k] == was[k]
  }

  // ----- the reverting loop -----

  /** Removes the first nodes of a batch, the last of them first, until it comes to one that is not there. */
  method RemoveFirst(index: UniqueIndex, added: seq<Option<nat>>, count: nat,
                     ghost trees: seq<Tree>, ghost keys: seq<Option<Key>>, ghost rows: seq<nat>) returns (ok: bool)
    requires index.Valid()
    requires count != 0 ==> count == |added| == |keys| == |rows| && Stages(trees, keys, rows, added) && index.tree == trees[|added|]
    modifies index
    ensures count == 0 ==> ok && index.Valid() && index.tree == old(index.tree)
    ensures count != 0 ==> (ok <==> None !in keys) && (ok ==> index.Valid() && index.tree == trees[0])
  {
    var j := count;
    while j > 0
      invariant 0 <= j <= count && index.Valid() && index.tree == if count == 0 then old(index.tree) else trees[j]
      invariant count != 0 ==> forall i :: j <= i < |keys| ==> keys[i].Some?
    {
      assert StageAt(trees, keys, rows, added, j - 1);
      if added[j - 1].None? {
        return false;
      }
      StageUndone(trees[j - 1], trees[j], keys[j - 1], rows[j - 1], added[j - 1].value);
      index.RemoveAdded(added[j - 1].value);
      j := j - 1;
    }
    return true;
  }

  /** Reverts one index. */
  method RevertOne(indexes: seq<UniqueIndex>, added: seq<seq<Option<nat>>>, count: nat, k: nat,
                   ghost was: seq<Tree>, ghost keys: seq<seq<Option<Key>>>, ghost rows: seq<nat>, ghost stages: seq<seq<Tree>>) returns (ok: bool)
    requires Standing(indexes) && k < |added| <= |indexes| && |stages| == |added| <= |keys|
    requires count != 0 ==> count == |rows| && FirstTook(was, Trees(indexes), keys, rows, added, stages, k + 1)
    modifies indexes[k]
    ensures count == 0 ==> ok && Standing(indexes) && Trees(indexes) == old(Trees(indexes))
    ensures count != 0 ==> (ok <==> None !in keys[k])
    ensures count != 0 && ok ==> Standing(indexes) && FirstTook(was, Trees(indexes), keys, rows, added, stages, k)
  {
    ghost var before := Trees(indexes);
    if count != 0 { assert Took(was[k], before[k], keys[k], rows, added[k], stages[k]); }
    ok := RemoveFirst(indexes[k], added[k], count, stages[k], keys[k], rows);
    assert forall i :: 0 <= i < |indexes| && i != k ==> Trees(indexes)[i] == before[i];
  }

  /** Reverts the first indexes, the last of them first, by removing as many nodes of each as it is told. */
  method Revert(indexes: seq<UniqueIndex>, added: seq<seq<Option<nat>>>, count: nat,
                ghost was: seq<Tree>, ghost keys: seq<seq<Option<Key>>>, ghost rows: seq<nat>, ghost stages: seq<seq<Tree>>) returns (ok: bool)
    requires Standing(indexes) && |added| <= |indexes| && |stages| == |added| <= |keys|
    requires count != 0 ==> count == |rows| && FirstTook(was, Trees(indexes), keys, rows, added, stages, |added|)
    modifies indexes
    ensures count == 0 ==> ok && Standing(indexes) && Trees(indexes) == old(Trees(indexes))
    ensures count != 0 ==> (ok <==> forall k :: 0 <= k < |added| ==> None !in keys[k])
    ensures count != 0 && ok ==> Standing(indexes) && Trees(indexes) == was
  {
    var k := |added|;
    while k > 0
      invariant 0 <= k <= |added| && Standing(indexes)
      invariant count == 0 ==> Trees(indexes) == old(Trees(indexes))
      invariant count != 0 ==> FirstTook(was, Trees(indexes), keys, rows, added, stages, k) && forall i :: k <= i < |added| ==> None !in keys[i]
    {
      k := k - 1;
      ok := RevertOne(indexes, added, count, k, was, keys, rows, stages);
      if !ok {
        return;
      }
    }
    return true;
  }

  // ----- appends -----

  /** The first index that refuses its keys. */
  ghost predicate RefusesFirst(verdicts: seq<bool>, f: nat) {
    f < |verdicts| && !verdicts[f] && forall k :: 0 <= k < f ==> verdicts[k]
  }

  /** Which of the indexes accept their keys. */
  ghost function Verdicts(s: DataTable.Scene, trees: seq<Tree>, ignored: set<nat>, indexes: seq<UniqueIndex>, keys: seq<seq<Option<Key>>>): (v: seq<bool>)
    requires |trees| == |indexes| == |keys|
    ensures |v| == |indexes|
  {
    seq(|indexes|, k requires 0 <= k < |indexes| => Acceptable(s, trees[k], ignored, keys[k], indexes[k].columns, indexes[k].allowNulls))
  }

  /** The trees before, the keys, and whether they will be accepted.  The counter keeps this closed where only its preservation matters. */
  ghost predicate Given(indexes: seq<UniqueIndex>, table: DataTable.DataTable, id: nat, keys: seq<seq<Option<Key>>>, numbers: seq<nat>, ignored: set<nat>,
                        was: seq<Tree>, verdicts: seq<bool>, n: nat := CLOSED)
    reads table, table.engine, table.engine.storage
    decreases n
  {
    if n != 0 then Given(indexes, table, id, keys, numbers, ignored, was, verdicts, n - 1) else
    && |was| == |keys| == |indexes| && Belong(indexes, was, table) && table.Valid() && IsActive(After(table.engine.history), id)
    && (forall k :: 0 <= k < |keys| ==> |keys[k]| == |numbers| && GoodKeys(keys[k], |indexes[k].columns|))
    && verdicts == Verdicts(table.SceneOf(id), was, ignored, indexes, keys)
  }

  lemma {:induction false} GivenIs(indexes: seq<UniqueIndex>, table: DataTable.DataTable, id: nat, keys: seq<seq<Option<Key>>>, numbers: seq<nat>,
                                   ignored: set<nat>, was: seq<Tree>, verdicts: seq<bool>, n: nat := CLOSED)
    ensures Given(indexes, table, id, keys, numbers, ignored, was, verdicts, n) == Given(indexes, table, id, keys, numbers, ignored, was, verdicts, 0)
    decreases n
  {
    if n != 0 { GivenIs(indexes, table, id, keys, numbers, ignored, was, verdicts, n - 1); }
  }

  lemma TookNext(was: seq<Tree>, before: seq<Tree>, now: seq<Tree>, keys: seq<seq<Option<Key>>>, rows: seq<nat>, added: seq<seq<Option<nat>>>,
                 stages: seq<seq<Tree>>, nodes: seq<Option<nat>>, trees: seq<Tree>)
    requires |stages| == |added| < |was| == |now| && FirstTook(was, before, keys, rows, added, stages, |added|)
    requires Took(was[|added|], now[|added|], keys[|added|], rows, nodes, trees)
    requires forall k :: 0 <= k < |was| && k != |added| ==> now[k] == before[k]
    ensures FirstTook(was, now, keys, rows, added + [nodes], stages + [trees], |added| + 1)
  {
  }

  /** Brings its keys into an index. */
  method TakeOne(indexes: seq<UniqueIndex>, table: DataTable.DataTable, id: nat, keys: seq<seq<Option<Key>>>, numbers: seq<nat>, ignored: set<nat>,
                 ghost was: seq<Tree>, ghost verdicts: seq<bool>, k: nat) returns (ok: bool, nodes: seq<Option<nat>>, ghost trees: seq<Tree>)
    requires Given(indexes, table, id, keys, numbers, ignored, was, verdicts)
    requires k < |was| == |keys| == |indexes| && indexes[k].Valid() && indexes[k].tree == was[k]
    modifies indexes[k]
    ensures indexes[k].Valid() && k < |verdicts| && (ok <==> verdicts[k]) && (!ok ==> numbers != [] && indexes[k].tree == was[k])
    ensures ok ==> Took(was[k], indexes[k].tree, keys[k], numbers, nodes, trees)
  {
    GivenIs(indexes, table, id, keys, numbers, ignored, was, verdicts);
    ok, nodes, trees := indexes[k].AddEntries(id, keys[k], numbers, ignored);
  }

  /** Brings keys into the next index. */
  method TakeNext(indexes: seq<UniqueIndex>, table: DataTable.DataTable, id: nat, keys: seq<seq<Option<Key>>>, numbers: seq<nat>, ignored: set<nat>,
                  ghost was: seq<Tree>, ghost verdicts: seq<bool>, k: nat, ghost added: seq<seq<Option<nat>>>, ghost stages: seq<seq<Tree>>)
      returns (ok: bool, nodes: seq<Option<nat>>, ghost trees: seq<Tree>)
    requires Standing(indexes) && |keys| == |indexes| && Given(indexes, table, id, keys, numbers, ignored, was, verdicts)
    requires |stages| == |added| == k < |indexes| && FirstTook(was, Trees(indexes), keys, numbers, added, stages, k)
    modifies indexes[k]
    ensures Standing(indexes) && k < |verdicts| && (ok <==> verdicts[k]) && (!ok ==> numbers != [])
    ensures if ok then FirstTook(was, Trees(indexes), keys, numbers, added + [nodes], stages + [trees], k + 1)
            else FirstTook(was, Trees(indexes), keys, numbers, added, stages, k)
  {
    ghost var before := Trees(indexes);
    ok, nodes, trees := TakeOne(indexes, table, id, keys, numbers, ignored, was, verdicts, k);
    if ok {
      TookNext(was, before, Trees(indexes), keys, numbers, added, stages, nodes, trees);
    } else {
      assert Trees(indexes) == before;
    }
  }

  /** Brings keys into one index after the other, until one refuses. */
  method TakeAll(indexes: seq<UniqueIndex>, table: DataTable.DataTable, id: nat, keys: seq<seq<Option<Key>>>, numbers: seq<nat>,
                 ghost was: seq<Tree>, ghost verdicts: seq<bool>) returns (added: seq<seq<Option<nat>>>, ghost stages: seq<seq<Tree>>)
    requires Standing(indexes) && |keys| == |indexes| && was == Trees(indexes)
    requires Given(indexes, table, id, keys, numbers, {}, was, verdicts)
    modifies indexes
    ensures |stages| == |added| <= |indexes| && Standing(indexes) && FirstTook(was, Trees(indexes), keys, numbers, added, stages, |added|)
    ensures |added| <= |verdicts| && forall k :: 0 <= k < |added| ==> verdicts[k]
    ensures |added| < |indexes| ==> |added| < |verdicts| && !verdicts[|added|] && numbers != []
  {
    added, stages := [], [];
    while |added| < |indexes|
      invariant |stages| == |added| <= |indexes| && Standing(indexes) && Given(indexes, table, id, keys, numbers, {}, was, verdicts)
      invariant FirstTook(was, Trees(indexes), keys, numbers, added, stages, |added|)
      invariant |added| <= |verdicts| && forall k :: 0 <= k < |added| ==> verdicts[k]
      decreases |indexes| - |added|
    {
      var ok, nodes;
      ghost var trees;
      ok, nodes, trees := TakeNext(indexes, table, id, keys, numbers, {}, was, verdicts, |added|, added, stages);
      if !ok {
        return;
      }
      added, stages := added + [nodes], stages + [trees];
    }
  }

  /** Brings the keys of new rows into all indexes. */
  method AppendKeys(indexes: seq<UniqueIndex>, table: DataTable.DataTable, id: nat, keys: seq<seq<Option<Key>>>, numbers: seq<nat>)
      returns (fate: Fate, ghost f: nat)
    requires Standing(indexes) && Belong(indexes, Trees(indexes), table) && table.Valid() && IsActive(After(table.engine.history), id)
    requires |keys| == |indexes|
    requires forall k :: 0 <= k < |keys| ==> |keys[k]| == |numbers| && GoodKeys(keys[k], |indexes[k].columns|)
    modifies indexes
    ensures var verdicts := Verdicts(table.SceneOf(id), old(Trees(indexes)), {}, indexes, keys);
      && (fate.Brought? <==> forall k :: 0 <= k < |indexes| ==> verdicts[k])
      && (!fate.Brought? ==> RefusesFirst(verdicts, f) && (fate.Refused? <==> forall k :: 0 <= k < f ==> None !in keys[k]))
    ensures fate.Brought? ==> Standing(indexes) && forall k :: 0 <= k < |indexes| ==>
      Entries(indexes[k].tree) == Entries(old(Trees(indexes))[k]) + BatchEntries(keys[k], numbers)
    ensures fate.Refused? ==> Standing(indexes) && Trees(indexes) == old(Trees(indexes))
  {
    ghost var was := Trees(indexes);
    ghost var verdicts := Verdicts(table.SceneOf(id), was, {}, indexes, keys);
    GivenIs(indexes, table, id, keys, numbers, {}, was, verdicts);
    ghost var stages;
    var added;
    added, stages := TakeAll(indexes, table, id, keys, numbers, was, verdicts);
    f := |added|;
    fate := Brought;
    if |added| < |indexes| {
      var reverted := Revert(indexes, added, |numbers|, was, keys, numbers, stages);
      fate := if reverted then Refused else NullFollowed;
    } else {
      AllTook(was, Trees(indexes), keys, numbers, added, stages);
    }
  }

  lemma AllTook(was: seq<Tree>, now: seq<Tree>, keys: seq<seq<Option<Key>>>, rows: seq<nat>, added: seq<seq<Option<nat>>>, stages: seq<seq<Tree>>)
    requires FirstTook(was, now, keys, rows, added, stages, |was|)
    ensures forall k :: 0 <= k < |was| ==> |keys[k]| == |rows| && Entries(now[k]) == Entries(was[k]) + BatchEntries(keys[k], rows)
  {
    forall k | 0 <= k < |was| ensures |keys[k]| == |rows| && Entries(now[k]) == Entries(was[k]) + BatchEntries(keys[k], rows) {
      assert Took(was[k], now[k], keys[k], rows, added[k], stages[k]);
    }
  }

  // ----- updates -----

  ghost predicate Affected(index: UniqueIndex, columnIds: seq<nat>) {
    exists c :: c in index.columns && c in columnIds
  }

  /** An update as it comes to the indexes of a table. */
  datatype Changes = Changes(numbers: seq<nat>, slots: seq<nat>, columnIds: seq<nat>, updates: seq<seq<int>>, raw: seq<seq<int>>)

  ghost function NewKeys(s: State<nat, Tuple>, u: Changes, index: UniqueIndex): (keys: seq<Option<Key>>)
    requires Updatable(s, u.slots, u.columnIds, u.updates, index.columns)
    ensures |keys| == |u.slots|
  {
    KeysOf(Updated(s, u.slots, u.columnIds, u.updates), index.columns)
  }

  ghost predicate Passes(scene: DataTable.Scene, s: State<nat, Tuple>, u: Changes, index: UniqueIndex, t: Tree)
    requires Updatable(s, u.slots, u.columnIds, u.updates, index.columns) && BytesOf(u.raw, u.updates)
  {
    var copies := RawKeys(s, u.slots, u.columnIds, u.raw, index.columns);
    Affected(index, u.columnIds) ==>
      && (forall i, j :: 0 <= i < j < |copies| ==> copies[i] != copies[j])
      && Acceptable(scene, t, NumberSet(u.numbers), NewKeys(s, u, index), index.columns, index.allowNulls)
  }

  /** What an index takes of an update. */
  ghost function Taken(s: State<nat, Tuple>, u: Changes, index: UniqueIndex): multiset<IndexEntry>
    requires Updatable(s, u.slots, u.columnIds, u.updates, index.columns) && |u.slots| == |u.numbers|
  {
    if Affected(index, u.columnIds) then BatchEntries(NewKeys(s, u, index), u.numbers) else multiset{}
  }

  /** An index of which no column is updated is not asked, and takes nothing. */
  lemma UnaffectedPasses(scene: DataTable.Scene, s: State<nat, Tuple>, u: Changes, index: UniqueIndex, t: Tree)
    requires Updatable(s, u.slots, u.columnIds, u.updates, index.columns) && BytesOf(u.raw, u.updates) && |u.slots| == |u.numbers|
    requires forall c :: c in index.columns ==> c !in u.columnIds
    ensures Passes(scene, s, u, index, t) && Taken(s, u, index) == multiset{}
  {
  }

  ghost predicate Fits(indexes: seq<UniqueIndex>, s: State<nat, Tuple>, u: Changes) {
    && |u.slots| == |u.numbers| && BytesOf(u.raw, u.updates)
    && forall k :: 0 <= k < |indexes| ==> Updatable(s, u.slots, u.columnIds, u.updates, indexes[k].columns)
  }

  /** The trees before and the update.  The counter is as in Given. */
  ghost predicate Changing(indexes: seq<UniqueIndex>, table: DataTable.DataTable, id: nat, u: Changes, s: State<nat, Tuple>, was: seq<Tree>,
                           verdicts: seq<bool>, n: nat := CLOSED)
    reads table, table.engine, table.engine.storage
    decreases n
  {
    if n != 0 then Changing(indexes, table, id, u, s, was, verdicts, n - 1) else
    && |was| == |indexes| == |verdicts| && Belong(indexes, was, table) && table.Valid() && IsActive(s, id) && s == After(table.engine.history)
    && Fits(indexes, s, u) && table.DistinctRows(u.numbers) && u.slots == table.SlotsFor(u.numbers)
    && forall k :: 0 <= k < |indexes| ==> verdicts[k] == Passes(table.SceneOf(id), s, u, indexes[k], was[k])
  }

  lemma {:induction false} ChangingIs(indexes: seq<UniqueIndex>, table: DataTable.DataTable, id: nat, u: Changes, s: State<nat, Tuple>,
                                      was: seq<Tree>, verdicts: seq<bool>, n: nat := CLOSED)
    ensures Changing(indexes, table, id, u, s, was, verdicts, n) == Changing(indexes, table, id, u, s, was, verdicts, 0)
    decreases n
  {
    if n != 0 { ChangingIs(indexes, table, id, u, s, was, verdicts, n - 1); }
  }

  /** Collects the new keys of an update, and looks for equal ones. */
  method CollectKeys(index: UniqueIndex, u: Changes) returns (keys: seq<Option<Key>>, duplicates: bool)
    requires index.table.engine.Valid() && Updatable(After(index.table.engine.history), u.slots, u.columnIds, u.updates, index.columns)
    requires BytesOf(u.raw, u.updates)
    ensures keys == NewKeys(After(index.table.engine.history), u, index)
    ensures var copies := RawKeys(After(index.table.engine.history), u.slots, u.columnIds, u.raw, index.columns);
      duplicates <==> exists i, j :: 0 <= i < j < |copies| && copies[i] == copies[j]
    ensures !duplicates ==> GoodKeys(keys, |index.columns|)
  {
    ghost var s := After(index.table.engine.history);
    RawKeysAreCopied(s, u.slots, u.columnIds, u.updates, u.raw, index.columns);
    var targets, hasNull := SerializeUpdate(index, u.slots, u.columnIds, u.updates, u.raw);
    DistinctTargets(targets, hasNull, Updated(s, u.slots, u.columnIds, u.updates), index.columns);
    duplicates := HasDuplicates(targets);
    keys := AsKeys(targets, hasNull);
  }

  /** Brings the new keys of an update into an index, if it affects it. */
  method UpdateIndex(index: UniqueIndex, id: nat, u: Changes) returns (ok: bool, nodes: seq<Option<nat>>)
    requires index.Valid() && index.table.Valid() && IsActive(After(index.table.engine.history), id)
    requires RowsKnown(index.tree, |DataTable.Rows(index.table.chunks)|) && |u.slots| == |u.numbers| && BytesOf(u.raw, u.updates)
    requires Updatable(After(index.table.engine.history), u.slots, u.columnIds, u.updates, index.columns)
    modifies index
    ensures index.Valid() && (ok <==> Passes(index.table.SceneOf(id), After(index.table.engine.history), u, index, old(index.tree)))
    ensures if ok then Entries(index.tree) == old(Entries(index.tree)) + Taken(After(index.table.engine.history), u, index)
            else index.tree == old(index.tree)
  {
    nodes := [];
    if !(exists c :: c in index.columns && c in u.columnIds) {
      return true, nodes;
    }
    var keys, duplicates := CollectKeys(index, u);
    if duplicates {
      return false, nodes;
    }
    var ignored := set n | n in u.numbers;
    assert ignored == NumberSet(u.numbers);
    ghost var trees;
    ok, nodes, trees := index.AddEntries(id, keys, u.numbers, ignored);
  }

  method UpdateOne(indexes: seq<UniqueIndex>, table: DataTable.DataTable, id: nat, u: Changes, ghost s: State<nat, Tuple>,
                   ghost was: seq<Tree>, ghost verdicts: seq<bool>, k: nat) returns (ok: bool, nodes: seq<Option<nat>>)
    requires Changing(indexes, table, id, u, s, was, verdicts) && Fits(indexes, s, u)
    requires k < |was| == |indexes| && indexes[k].Valid() && indexes[k].tree == was[k]
    modifies indexes[k]
    ensures indexes[k].Valid() && k < |verdicts| && (ok <==> verdicts[k])
    ensures if ok then Entries(indexes[k].tree) == Entries(was[k]) + Taken(s, u, indexes[k]) else indexes[k].tree == was[k]
  {
    ChangingIs(indexes, table, id, u, s, was, verdicts);
    ok, nodes := UpdateIndex(indexes[k], id, u);
  }

  /** The first indexes have taken what they were to take. */
  ghost predicate FirstChanged(indexes: seq<UniqueIndex>, s: State<nat, Tuple>, u: Changes, was: seq<Tree>, now: seq<Tree>, n: nat)
    requires Fits(indexes, s, u) && |was| == |now| == |indexes|
  {
    && (forall k :: 0 <= k < |indexes| && k < n ==> Entries(now[k]) == Entries(was[k]) + Taken(s, u, indexes[k]))
    && forall k :: n <= k < |indexes| ==> now[k] == was[k]
  }

  /** Brings the new keys of an update into the next index. */
  method UpdateNext(indexes: seq<UniqueIndex>, table: DataTable.DataTable, id: nat, u: Changes, ghost s: State<nat, Tuple>,
                    ghost was: seq<Tree>, ghost verdicts: seq<bool>, k: nat) returns (ok: bool, nodes: seq<Option<nat>>)
    requires Standing(indexes) && Changing(indexes, table, id, u, s, was, verdicts) && Fits(indexes, s, u)
    requires k < |was| == |indexes| && FirstChanged(indexes, s, u, was, Trees(indexes), k)
    modifies indexes[k]
    ensures Standing(indexes) && k < |verdicts| && (ok <==> verdicts[k])
    ensures FirstChanged(indexes, s, u, was, Trees(indexes), if ok then k + 1 else k)
  {
    ghost var before := Trees(indexes);
    ok, nodes := UpdateOne(indexes, table, id, u, s, was, verdicts, k);
    assert forall i :: 0 <= i < |indexes| && i != k ==> Trees(indexes)[i] == before[i];
  }

  /** Brings the new keys of an update into one index after the other, until one refuses. */
  method UpdateAll(indexes: seq<UniqueIndex>, table: DataTable.DataTable, id: nat, u: Changes, ghost s: State<nat, Tuple>,
                   ghost was: seq<Tree>, ghost verdicts: seq<bool>) returns (added: seq<seq<Option<nat>>>)
    requires Standing(indexes) && Changing(indexes, table, id, u, s, was, verdicts) && Fits(indexes, s, u) && was == Trees(indexes)
    modifies indexes
    ensures Standing(indexes) && |added| <= |indexes| && FirstChanged(indexes, s, u, was, Trees(indexes), |added|)
    ensures |added| <= |verdicts| && forall k :: 0 <= k < |added| ==> verdicts[k]
    ensures |added| < |indexes| ==> |added| < |verdicts| && !verdicts[|added|]
  {
    added := [];
    while |added| < |indexes|
      invariant |added| <= |indexes| && Standing(indexes) && Changing(indexes, table, id, u, s, was, verdicts)
      invariant FirstChanged(indexes, s, u, was, Trees(indexes), |added|)
      invariant |added| <= |verdicts| && forall k :: 0 <= k < |added| ==> verdicts[k]
      decreases |indexes| - |added|
    {
      var ok, nodes := UpdateNext(indexes, table, id, u, s, was, verdicts, |added|);
      if !ok {
        return;
      }
      added := added + [nodes];
    }
  }

  /** The verdicts of all indexes on an update. */
  ghost function UpdateVerdicts(scene: DataTable.Scene, s: State<nat, Tuple>, u: Changes, indexes: seq<UniqueIndex>, trees: seq<Tree>): (v: seq<bool>)
    requires Fits(indexes, s, u) && |trees| == |indexes|
    ensures |v| == |indexes|
  {
    seq(|indexes|, k requires 0 <= k < |indexes| => Passes(scene, s, u, indexes[k], trees[k]))
  }

  /** Brings the new keys of an update into all indexes that it affects.  The nodes to be removed on a refusal are counted by the
    refusing index, which has counted none yet. */
  method UpdateKeysOfAll(indexes: seq<UniqueIndex>, table: DataTable.DataTable, id: nat, u: Changes) returns (ok: bool, ghost f: nat)
    requires Standing(indexes) && Belong(indexes, Trees(indexes), table) && table.Valid() && IsActive(After(table.engine.history), id)
    requires Fits(indexes, After(table.engine.history), u) && table.DistinctRows(u.numbers) && u.slots == table.SlotsFor(u.numbers)
    modifies indexes
    ensures Standing(indexes)
    ensures var verdicts := UpdateVerdicts(table.SceneOf(id), After(table.engine.history), u, indexes, old(Trees(indexes)));
      && (ok <==> forall k :: 0 <= k < |indexes| ==> verdicts[k])
      && if ok then f == |indexes| else RefusesFirst(verdicts, f)
    ensures FirstChanged(indexes, After(table.engine.history), u, old(Trees(indexes)), Trees(indexes), f)
  {
    ghost var s, was := After(table.engine.history), Trees(indexes);
    ghost var verdicts := UpdateVerdicts(table.SceneOf(id), s, u, indexes, was);
    ChangingIs(indexes, table, id, u, s, was, verdicts);
    var added := UpdateAll(indexes, table, id, u, s, was, verdicts);
    f := |added|;
    ok := |added| == |indexes|;
    if !ok {
      var count := 0;
      var reverted := Revert(indexes, added, count, was, seq(|added|, i => []), [], seq(|added|, i => []));
    }
  }

  lemma {:induction false} BatchIsEmptyExactly(keys: seq<Option<Key>>, rows: seq<nat>)
    requires |keys| == |rows|
    ensures BatchEntries(keys, rows) == multiset{} <==> forall i :: 0 <= i < |keys| ==> keys[i].None?
  {
    if keys != [] {
      var n := |keys| - 1;
      BatchIsEmptyExactly(keys[..n], rows[..n]);
      if forall i :: 0 <= i < |keys| ==> keys[i].None? {
        assert forall i :: 0 <= i < n ==> keys[..n][i].None?;
      } else {
        var i :| 0 <= i < |keys| && keys[i].Some?;
        BatchHas(keys, rows, i);
      }
    }
  }

  /** A refused update leaves the indexes as they were exactly when all that came before the refusing one is unaffected by it,
    or takes NULLs only. */
  lemma RevertedExactly(indexes: seq<UniqueIndex>, s: State<nat, Tuple>, u: Changes, was: seq<Tree>, now: seq<Tree>, f: nat)
    requires Fits(indexes, s, u) && |was| == |now| == |indexes| && f <= |indexes| && FirstChanged(indexes, s, u, was, now, f)
    ensures (forall k :: 0 <= k < |indexes| ==> Entries(now[k]) == Entries(was[k]))
      <==> (forall k :: 0 <= k < f && Affected(indexes[k], u.columnIds) ==> forall i :: 0 <= i < |u.numbers| ==> NewKeys(s, u, indexes[k])[i].None?)
  {
    forall k | 0 <= k < f
      ensures Entries(now[k]) == Entries(was[k]) <==>
        (Affected(indexes[k], u.columnIds) ==> forall i :: 0 <= i < |u.numbers| ==> NewKeys(s, u, indexes[k])[i].None?)
    {
      SumIsFirst(Entries(was[k]), Taken(s, u, indexes[k]));
      BatchIsEmptyExactly(NewKeys(s, u, indexes[k]), u.numbers);
    }
  }

  lemma SumIsFirst(a: multiset<IndexEntry>, b: multiset<IndexEntry>)
    ensures a + b == a <==> b == multiset{}
  {
    if b != multiset{} {
      var e :| e in b;
      assert (a + b)[e] > a[e];
    }
  }
}
