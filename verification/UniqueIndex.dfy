/** A unique index: its tree nodes, and how new keys get in.

  Nodes live in an arena; a pointer to a node is its position there. */
module UniqueIndex {
  import opened Versions
  import opened Mvcc
  import opened TableStorage
  import opened Engine
  import opened Uniqueness
  import opened IndexTree
  import DataTable

  datatype IndexNode = IndexNode(tuple: Key, row: nat, parent: Option<nat>, left: Option<nat>, right: Option<nat>)

  ghost function Pointer(t: Tree): Option<nat> {
    if t.Leaf? then None else Some(t.id)
  }

  /** The nodes are linked downwards as in the tree. */
  ghost predicate Linked(nodes: seq<IndexNode>, t: Tree) {
    match t case Leaf => true
    case Node(l, id, e, r) =>
      && id < |nodes| && nodes[id].tuple == e.key && nodes[id].row == e.row
      && nodes[id].left == Pointer(l) && nodes[id].right == Pointer(r)
      && Linked(nodes, l) && Linked(nodes, r)
  }

  /** The nodes are linked upwards as in the tree. */
  ghost predicate Parents(nodes: seq<IndexNode>, t: Tree, parent: Option<nat>) {
    match t case Leaf => true
    case Node(l, id, _, r) => id < |nodes| && nodes[id].parent == parent && Parents(nodes, l, Some(id)) && Parents(nodes, r, Some(id))
  }

  lemma {:induction false} LinkedFrame(nodes: seq<IndexNode>, nodes': seq<IndexNode>, t: Tree)
    requires Linked(nodes, t) && |nodes| <= |nodes'|
    requires forall i :: i in Ids(t) && i < |nodes| ==> nodes'[i].(parent := None) == nodes[i].(parent := None)
    ensures Linked(nodes', t)
  {
    match t case Leaf =>
    case Node(l, id, _, r) =>
      LinkedFrame(nodes, nodes', l);
      LinkedFrame(nodes, nodes', r);
      assert id in Ids(t);
      assert nodes'[id] == nodes'[id].(parent := None).(parent := nodes'[id].parent);
      assert nodes[id] == nodes[id].(parent := None).(parent := nodes[id].parent);
  }

  lemma {:induction false} ParentsFrame(nodes: seq<IndexNode>, nodes': seq<IndexNode>, t: Tree, parent: Option<nat>)
    requires Parents(nodes, t, parent) && |nodes| <= |nodes'|
    requires forall i :: i in Ids(t) && i < |nodes| ==> nodes'[i].parent == nodes[i].parent
    ensures Parents(nodes', t, parent)
  {
    match t case Leaf =>
    case Node(l, id, _, r) =>
      ParentsFrame(nodes, nodes', l, Some(id));
      ParentsFrame(nodes, nodes', r, Some(id));
      assert id in Ids(t);
  }

  /** The links leave no choice: a tree has the same nodes in any two arenas that hold it. */
  lemma {:induction false} SameTreeSameNodes(nodes: seq<IndexNode>, nodes': seq<IndexNode>, t: Tree, parent: Option<nat>)
    requires Linked(nodes, t) && Parents(nodes, t, parent) && Linked(nodes', t) && Parents(nodes', t, parent)
    ensures Restored(nodes, nodes', t)
  {
    match t case Leaf =>
    case Node(l, id, _, r) =>
      SameTreeSameNodes(nodes, nodes', l, Some(id));
      SameTreeSameNodes(nodes, nodes', r, Some(id));
  }

  /** The nodes of a tree are the same in both arenas. */
  ghost predicate Restored(nodes: seq<IndexNode>, nodes': seq<IndexNode>, t: Tree) {
    forall i :: i in Ids(t) ==> i < |nodes| && i < |nodes'| && nodes'[i] == nodes[i]
  }

  /** The arena after a new node has been hung below another one. */
  ghost predicate Hung(nodes: seq<IndexNode>, nodes': seq<IndexNode>, b: nat, n: IndexNode) {
    && b < |nodes| && |nodes'| == |nodes| + 1 && nodes'[|nodes|] == n
    && forall i :: 0 <= i < |nodes| ==>
         nodes'[i] == if i != b then nodes[i]
                      else if Less(nodes[b].tuple, n.tuple) then nodes[b].(left := Some(|nodes|)) else nodes[b].(right := Some(|nodes|))
  }

  lemma {:induction false} InsertLinks(nodes: seq<IndexNode>, nodes': seq<IndexNode>, t: Tree, e: IndexEntry)
    requires t.Node? && Proper(t) && Linked(nodes, t)
    requires Hung(nodes, nodes', Bottom(t, e.key), IndexNode(e.key, e.row, Some(Bottom(t, e.key)), None, None))
    ensures Linked(nodes', Insert(t, |nodes|, e))
  {
    IdsKnown(nodes, t);
    if Less(t.entry.key, e.key) {
      LinkedFrame(nodes, nodes', t.right);
      if t.left.Node? { InsertLinks(nodes, nodes', t.left, e); }
    } else {
      LinkedFrame(nodes, nodes', t.left);
      if t.right.Node? { InsertLinks(nodes, nodes', t.right, e); }
    }
  }

  lemma {:induction false} InsertParents(nodes: seq<IndexNode>, nodes': seq<IndexNode>, t: Tree, e: IndexEntry, parent: Option<nat>)
    requires t.Node? && Parents(nodes, t, parent)
    requires SameParents(nodes, nodes') && |nodes'| == |nodes| + 1 && nodes'[|nodes|].parent == Some(Bottom(t, e.key))
    ensures Parents(nodes', Insert(t, |nodes|, e), parent)
  {
    if Less(t.entry.key, e.key) {
      ParentsFrame(nodes, nodes', t.right, Some(t.id));
      if t.left.Node? { InsertParents(nodes, nodes', t.left, e, Some(t.id)); }
    } else {
      ParentsFrame(nodes, nodes', t.left, Some(t.id));
      if t.right.Node? { InsertParents(nodes, nodes', t.right, e, Some(t.id)); }
    }
  }

  ghost predicate SameParents(nodes: seq<IndexNode>, nodes': seq<IndexNode>) {
    |nodes| <= |nodes'| && forall i :: 0 <= i < |nodes| ==> nodes'[i].parent == nodes[i].parent
  }

  lemma InsertIsTree(nodes: seq<IndexNode>, nodes': seq<IndexNode>, t: Tree, e: IndexEntry)
    requires t.Node? && Proper(t) && Ordered(t) && Linked(nodes, t) && Parents(nodes, t, None)
    requires Hung(nodes, nodes', Bottom(t, e.key), IndexNode(e.key, e.row, Some(Bottom(t, e.key)), None, None))
    ensures |nodes| !in Ids(t) && Pointer(Insert(t, |nodes|, e)) == Pointer(t)
    ensures Linked(nodes', Insert(t, |nodes|, e)) && Parents(nodes', Insert(t, |nodes|, e), None)
    ensures Proper(Insert(t, |nodes|, e)) && Ordered(Insert(t, |nodes|, e))
  {
    IdsKnown(nodes, t);
    InsertKeepsProper(t, |nodes|, e);
    InsertKeepsOrder(t, |nodes|, e);
    InsertLinks(nodes, nodes', t, e);
    HungParents(nodes, nodes', Bottom(t, e.key), IndexNode(e.key, e.row, Some(Bottom(t, e.key)), None, None));
    InsertParents(nodes, nodes', t, e, None);
  }

  lemma HungParents(nodes: seq<IndexNode>, nodes': seq<IndexNode>, b: nat, n: IndexNode)
    requires Hung(nodes, nodes', b, n)
    ensures SameParents(nodes, nodes') && |nodes'| == |nodes| + 1 && nodes'[|nodes|].parent == n.parent
  {
  }

  lemma {:induction false} IdsKnown(nodes: seq<IndexNode>, t: Tree)
    requires Linked(nodes, t)
    ensures forall i :: i in Ids(t) ==> i < |nodes|
  {
    match t case Leaf => case Node(l, _, _, r) => IdsKnown(nodes, l); IdsKnown(nodes, r);
  }

  /** The arena after a childless node has been cut off its parent. */
  ghost predicate CutOff(nodes: seq<IndexNode>, nodes': seq<IndexNode>, p: nat, id: nat) {
    && p < |nodes| == |nodes'|
    && forall i :: 0 <= i < |nodes| ==>
         nodes'[i] == if i != p then nodes[i]
                      else if nodes[p].left == Some(id) then nodes[p].(left := None) else nodes[p].(right := None)
  }

  /** The parent of a node other than the root lies in the tree. */
  lemma {:induction false} ParentInside(nodes: seq<IndexNode>, t: Tree, parent: Option<nat>, id: nat)
    requires Parents(nodes, t, parent) && id in Ids(t) && t.id != id
    ensures id < |nodes| && nodes[id].parent.Some? && nodes[id].parent.value in Ids(t)
  {
    if id in Ids(t.left) {
      if t.left.id != id { ParentInside(nodes, t.left, Some(t.id), id); }
    } else {
      if t.right.id != id { ParentInside(nodes, t.right, Some(t.id), id); }
    }
  }

  lemma {:induction false} LeafNodeInside(t: Tree, id: nat)
    requires IsLeafNode(t, id)
    ensures id in Ids(t)
  {
    match t case Node(l, m, _, r) =>
      if IsLeafNode(l, id) { LeafNodeInside(l, id); } else if IsLeafNode(r, id) { LeafNodeInside(r, id); }
  }

  lemma {:induction false} LeafNodeSide(t: Tree, id: nat)
    requires t.Node? && Proper(t) && IsLeafNode(t, id) && t.id != id
    ensures id in Ids(t.left) ==> IsLeafNode(t.left, id) && id !in Ids(t.right)
    ensures id !in Ids(t.left) ==> IsLeafNode(t.right, id)
  {
    if IsLeafNode(t.left, id) { LeafNodeInside(t.left, id); } else { LeafNodeInside(t.right, id); }
  }

  lemma {:induction false} LoneLeaf(t: Tree, id: nat)
    requires Proper(t) && IsLeafNode(t, id) && t.id == id
    ensures t.left.Leaf? && t.right.Leaf?
  {
    if IsLeafNode(t.left, id) { LeafNodeInside(t.left, id); }
    if IsLeafNode(t.right, id) { LeafNodeInside(t.right, id); }
  }

  lemma {:induction false} PruneLinks(nodes: seq<IndexNode>, nodes': seq<IndexNode>, t: Tree, parent: Option<nat>, id: nat)
    requires t.Node? && Proper(t) && Linked(nodes, t) && Parents(nodes, t, parent) && IsLeafNode(t, id) && t.id != id
    requires id < |nodes| && nodes[id].parent.Some? && CutOff(nodes, nodes', nodes[id].parent.value, id)
    ensures Linked(nodes', Pruned(t, id)) && Parents(nodes', Pruned(t, id), parent)
  {
    LeafNodeSide(t, id);
    LeafNodeInside(t, id);
    IdsKnown(nodes, t);
    var side, other := if id in Ids(t.left) then t.left else t.right, if id in Ids(t.left) then t.right else t.left;
    if side.id == id {
      LoneLeaf(side, id);
    } else {
      ParentInside(nodes, side, Some(t.id), id);
      PruneLinks(nodes, nodes', side, Some(t.id), id);
    }
    PruneAbsent(other, id);
    LinkedFrame(nodes, nodes', other);
    ParentsFrame(nodes, nodes', other, Some(t.id));
  }

  function LeftmostId(t: Tree): nat
    requires t.Node?
  {
    if t.left.Leaf? then t.id else LeftmostId(t.left)
  }

  lemma {:induction false} LeftmostInside(t: Tree)
    requires t.Node?
    ensures LeftmostId(t) in Ids(t)
  {
    if t.left.Node? { LeftmostInside(t.left); }
  }

  lemma {:induction false} GraftLinks(nodes: seq<IndexNode>, nodes': seq<IndexNode>, t: Tree, u: Tree)
    requires t.Node? && Proper(t) && Linked(nodes, t) && Linked(nodes, u) && Ids(t) !! Ids(u)
    requires |nodes'| == |nodes| && LeftmostId(t) < |nodes|
    requires forall i :: 0 <= i < |nodes| ==> nodes'[i] == if i == LeftmostId(t) then nodes[i].(left := Pointer(u)) else nodes[i]
    ensures Linked(nodes', Grafted(t, u))
  {
    LeftmostInside(t);
    if t.left.Leaf? {
      LinkedFrame(nodes, nodes', u);
    } else {
      LeftmostInside(t.left);
      GraftLinks(nodes, nodes', t.left, u);
    }
    LinkedFrame(nodes, nodes', t.right);
  }

  lemma {:induction false} GraftNothing(t: Tree)
    ensures Grafted(t, Leaf) == t
  {
    match t case Leaf => case Node(l, _, _, _) => GraftNothing(l);
  }

  lemma BeheadLinks(nodes: seq<IndexNode>, nodes': seq<IndexNode>, nodes'': seq<IndexNode>, t: Tree)
    requires t.Node? && t.left.Node? && t.right.Node? && Proper(t) && Linked(nodes, t)
    requires |nodes''| == |nodes'| == |nodes| && LeftmostId(t.right) < |nodes|
    requires forall i :: 0 <= i < |nodes| ==>
      nodes'[i] == if i == LeftmostId(t.right) && t.left.right.Node? then nodes[i].(left := Pointer(t.left.right)) else nodes[i]
    requires forall i :: 0 <= i < |nodes| ==> nodes''[i] == if i == t.left.id then nodes'[i].(right := Some(t.right.id)) else nodes'[i]
    ensures Linked(nodes'', Beheaded(t)) && nodes''[t.left.id].parent == nodes[t.left.id].parent
  {
    LeftmostInside(t.right);
    IdsKnown(nodes, t);
    GraftKeeps(t.right, t.left.right);
    if t.left.right.Node? {
      GraftLinks(nodes, nodes', t.right, t.left.right);
    } else {
      GraftNothing(t.right);
      LinkedFrame(nodes, nodes', t.right);
    }
    LinkedFrame(nodes', nodes'', Grafted(t.right, t.left.right));
    LinkedFrame(nodes, nodes'', t.left.left);
  }

  lemma LeafRoot(t: Tree)
    requires t.Node? && Proper(t)
    ensures IsLeafNode(t, t.id) <==> t.left.Leaf? && t.right.Leaf?
  {
    if IsLeafNode(t, t.id) { LoneLeaf(t, t.id); }
  }

  lemma {:induction false} PruneKeepsOrder(t: Tree, id: nat)
    requires Proper(t) && Ordered(t)
    ensures Proper(Pruned(t, id)) && Ordered(Pruned(t, id)) && Ids(Pruned(t, id)) <= Ids(t)
    ensures forall e :: e in Entries(Pruned(t, id)) ==> e in Entries(t)
  {
    match t case Leaf => case Node(l, _, _, r) => PruneKeepsOrder(l, id); PruneKeepsOrder(r, id);
  }

  lemma RootChildren(nodes: seq<IndexNode>, t: Tree)
    requires t.Node? && t.left.Node? && t.right.Node? && Linked(nodes, t)
    ensures t.left.id < |nodes| && nodes[t.left.id].right == Pointer(t.left.right) && Linked(nodes, t.right) && t.right.id < |nodes|
  {
  }

  /** The arena after the root has been spliced out. */
  ghost predicate Spliced(nodes: seq<IndexNode>, nodes': seq<IndexNode>, t: Tree)
    requires t.Node? && t.left.Node? && t.right.Node?
  {
    && |nodes'| == |nodes| && t.left.id < |nodes|
    && forall i :: 0 <= i < |nodes| ==>
         nodes'[i] == (if i == t.left.id then Grafting(nodes, t, i).(right := Some(t.right.id)) else Grafting(nodes, t, i))
  }

  ghost function Grafting(nodes: seq<IndexNode>, t: Tree, i: nat): IndexNode
    requires t.Node? && t.left.Node? && t.right.Node? && i < |nodes|
  {
    if i == LeftmostId(t.right) && t.left.right.Node? then nodes[i].(left := Pointer(t.left.right)) else nodes[i]
  }

  lemma SpliceIsTree(nodes: seq<IndexNode>, nodes': seq<IndexNode>, t: Tree)
    requires t.Node? && t.left.Node? && t.right.Node? && Proper(t) && Linked(nodes, t) && Parents(nodes, t, None)
    requires Spliced(nodes, nodes', t)
    ensures Linked(nodes', Beheaded(t)) && Pointer(Beheaded(t)) == Some(t.left.id) && !Parents(nodes', Beheaded(t), None)
  {
    LeftmostInside(t.right);
    IdsKnown(nodes, t.right);
    var grafted := seq(|nodes|, i requires 0 <= i < |nodes| => Grafting(nodes, t, i));
    BeheadLinks(nodes, grafted, nodes', t);
    assert Parents(nodes, t.left, Some(t.id));
  }

  /** A child that comes to the root keeps the old root as its parent. */
  lemma OneChildStale(nodes: seq<IndexNode>, t: Tree)
    requires t.Node? && (t.left.Leaf? || t.right.Leaf?) && Linked(nodes, t) && Parents(nodes, t, None)
    ensures Parents(nodes, Beheaded(t), None) <==> t.left.Leaf? && t.right.Leaf?
    ensures Linked(nodes, Beheaded(t)) && Pointer(Beheaded(t)) == if t.left.Node? then Pointer(t.left) else Pointer(t.right)
  {
    assert Parents(nodes, t.left, Some(t.id)) && Parents(nodes, t.right, Some(t.id));
  }

  lemma LeafIsKnown(nodes: seq<IndexNode>, t: Tree, id: nat)
    requires t.Node? && Linked(nodes, t) && Parents(nodes, t, None) && IsLeafNode(t, id) && t.id != id
    ensures id < |nodes| && nodes[id].parent.Some? && nodes[id].parent.value < |nodes|
  {
    LeafNodeInside(t, id);
    IdsKnown(nodes, t);
    ParentInside(nodes, t, None, id);
  }

  lemma LeafIsGone(nodes: seq<IndexNode>, nodes': seq<IndexNode>, t: Tree, id: nat)
    requires t.Node? && Proper(t) && Ordered(t) && Linked(nodes, t) && Parents(nodes, t, None) && IsLeafNode(t, id) && t.id != id
    requires id < |nodes| && nodes[id].parent.Some? && CutOff(nodes, nodes', nodes[id].parent.value, id)
    ensures Linked(nodes', Pruned(t, id)) && Parents(nodes', Pruned(t, id), None)
    ensures Proper(Pruned(t, id)) && Ordered(Pruned(t, id)) && Pointer(Pruned(t, id)) == Pointer(t)
  {
    PruneLinks(nodes, nodes', t, None, id);
    PruneKeepsOrder(t, id);
  }

  // ----- checking a node -----

  /** Compares a key with the key columns of a row. */
  method KeyMatches(key: Key, columns: seq<nat>, row: Tuple) returns (same: bool)
    requires |key| == |columns| && NULL_VALUE !in key
    ensures same <==> KeyOf(Some(row), columns) == Some(key)
  {
    var i := 0;
    while i < |columns|
      invariant 0 <= i <= |columns|
      invariant forall j :: 0 <= j < i ==> Project(row, columns)[j] == key[j]
    {
      if Project(row, columns)[i] != key[i] {
        return false;
      }
      i := i + 1;
    }
    assert Project(row, columns) == key;
    return true;
  }

  /** Walks down the versions that the reader does not see, and the one below them. */
  method VersionsHave(storage: Storage, slot: nat, id: nat, start: nat, key: Key, columns: seq<nat>) returns (conflict: bool)
    requires storage.Valid() && slot < |storage.chains| && |key| == |columns| && NULL_VALUE !in key
    ensures conflict == HiddenHas(storage.CellOf(slot), Reader(id, start), key, columns)
  {
    ghost var chain, cell, r := storage.chains[slot], storage.CellOf(slot), Reader(id, start);
    assert ChainOk(storage.records, storage.origins, chain, slot, storage.Base(slot));
    conflict := false;
    if storage.versionPointers[slot].None? {
      return;
    }
    var version := storage.versionPointers[slot].value;
    if storage.records[version].versionNumber == id || storage.records[version].versionNumber < start {
      return;
    }
    ghost var i: nat := 0;
    assert Cell(cell.cur, cell.undo[0..]) == cell;
    while true
      invariant i < |chain| && version == chain[i] && !Sees(r, cell.undo[i].stamp)
      invariant HiddenHas(cell, r, key, columns) == HiddenHas(Cell(cell.cur, cell.undo[i..]), r, key, columns)
      decreases |chain| - i
    {
      assert InPlace(storage.records, storage.origins, chain, slot, storage.Base(slot), i);
      HiddenStep(cell, i, r, key, columns);
      if storage.records[version].tupleData.None? {
        conflict := false;
      } else {
        conflict := KeyMatches(key, columns, storage.records[version].tupleData.value);
        if conflict {
          break;
        }
      }
      var next := storage.records[version].next;
      if next.None? {
        break;
      }
      if storage.records[next.value].versionNumber == id {
        break;
      }
      if storage.records[next.value].versionNumber < start {
        break;
      }
      version := next.value;
      i := i + 1;
    }
  }

  lemma HiddenStep(c: Cell<Tuple>, i: nat, r: Reader, key: Key, columns: seq<nat>)
    requires i < |c.undo| && !Sees(r, c.undo[i].stamp)
    ensures HiddenHas(Cell(c.cur, c.undo[i..]), r, key, columns)
         == (KeyOf(c.undo[i].before, columns) == Some(key)
             || (i + 1 < |c.undo| && !Sees(r, c.undo[i + 1].stamp) && HiddenHas(Cell(c.cur, c.undo[i + 1..]), r, key, columns)))
  {
    var d := Cell(c.cur, c.undo[i..]);
    assert d.undo[1..] == c.undo[i + 1..];
    HiddenIgnoresCurrent(c.undo[i].before, c.cur, c.undo[i + 1..], r, key, columns);
  }

  lemma HiddenIgnoresCurrent(a: Option<Tuple>, b: Option<Tuple>, undo: seq<Rec<Tuple>>, r: Reader, key: Key, columns: seq<nat>)
    ensures HiddenHas(Cell(a, undo), r, key, columns) == HiddenHas(Cell(b, undo), r, key, columns)
  {
    if undo != [] { assert Pop(Cell(a, undo)) == Pop(Cell(b, undo)); }
  }

  /** Whether a node stands in the way of a key. */
  ghost predicate NodeBlocks(s: DataTable.Scene, e: IndexEntry, ignored: set<nat>, key: Key, columns: seq<nat>) {
    e.row < |s.rows| && Blocks(CellAt(s.cells, s.rows[e.row]), s.reader, e.row in ignored, key, columns)
  }

  /** No node with the key stands in its way. */
  ghost predicate KeyFree(s: DataTable.Scene, t: Tree, ignored: set<nat>, key: Key, columns: seq<nat>) {
    forall e :: e in Entries(t) && e.key == key ==> !NodeBlocks(s, e, ignored, key, columns)
  }

  /** The nodes on the rest of the descent are all that may still block the key. */
  ghost predicate PathDecides(s: DataTable.Scene, t: Tree, sub: Tree, ignored: set<nat>, key: Key, columns: seq<nat>) {
    && (forall e :: e in OnPath(sub, key) ==> e in Entries(t))
    && (forall e :: e in Entries(t) && e.key == key ==> e in OnPath(sub, key) || !NodeBlocks(s, e, ignored, key, columns))
  }

  lemma PathBegins(s: DataTable.Scene, t: Tree, ignored: set<nat>, key: Key, columns: seq<nat>)
    requires Ordered(t)
    ensures PathDecides(s, t, t, ignored, key, columns)
  {
    DescentMeetsEqualKeys(t, key);
  }

  lemma PathStep(s: DataTable.Scene, t: Tree, sub: Tree, ignored: set<nat>, key: Key, columns: seq<nat>)
    requires PathDecides(s, t, sub, ignored, key, columns) && sub.Node?
    requires sub.entry.key == key ==> !NodeBlocks(s, sub.entry, ignored, key, columns)
    ensures PathDecides(s, t, if Less(sub.entry.key, key) then sub.left else sub.right, ignored, key, columns)
    ensures sub.entry in Entries(t)
  {
    assert sub.entry in OnPath(sub, key);
  }

  // ----- batches -----

  /** The arena holds the tree.  The counter is as in Closed. */
  ghost predicate Holds(nodes: seq<IndexNode>, t: Tree, n: nat := CLOSED)
    decreases |nodes|, n
  {
    if n == 0 then Linked(nodes, t) && Parents(nodes, t, None) else Holds(nodes, t, n - 1)
  }

  lemma {:induction false} HoldsIs(nodes: seq<IndexNode>, t: Tree, n: nat := CLOSED)
    ensures Holds(nodes, t, n) <==> Linked(nodes, t) && Parents(nodes, t, None)
    decreases n
  {
    if n > 0 { HoldsIs(nodes, t, n - 1); }
  }

  /** A key was skipped, or its node came into the tree. */
  ghost predicate Stage(t: Tree, t': Tree, key: Option<Key>, row: nat, added: Option<nat>) {
    match added
    case None => key.None? && t' == t
    case Some(id) => key.Some? && id !in Ids(t) && t' == Insert(t, id, IndexEntry(key.value, row))
  }

  /** The trees on the way through a batch. */
  ghost predicate Stages(trees: seq<Tree>, keys: seq<Option<Key>>, rows: seq<nat>, added: seq<Option<nat>>)
    requires |added| <= |keys| == |rows|
  {
    && |trees| == |added| + 1
    && forall j: nat :: j < |added| ==> StageAt(trees, keys, rows, added, j)
  }

  ghost predicate StageAt(trees: seq<Tree>, keys: seq<Option<Key>>, rows: seq<nat>, added: seq<Option<nat>>, j: nat)
    requires j < |added| <= |keys| == |rows| && |trees| == |added| + 1
  {
    Stage(trees[j], trees[j + 1], keys[j], rows[j], added[j])
  }

  ghost function BatchEntries(keys: seq<Option<Key>>, rows: seq<nat>): multiset<IndexEntry>
    requires |keys| == |rows|
  {
    if keys == [] then multiset{} else
    var n := |keys| - 1;
    BatchEntries(keys[..n], rows[..n]) + if keys[n].Some? then multiset{IndexEntry(keys[n].value, rows[n])} else multiset{}
  }

  lemma BatchPush(keys: seq<Option<Key>>, rows: seq<nat>, i: nat)
    requires i < |keys| == |rows|
    ensures BatchEntries(keys[..i + 1], rows[..i + 1])
         == BatchEntries(keys[..i], rows[..i]) + if keys[i].Some? then multiset{IndexEntry(keys[i].value, rows[i])} else multiset{}
  {
    assert keys[..i + 1][..i] == keys[..i] && rows[..i + 1][..i] == rows[..i];
  }

  /** The first i keys of a batch have come into the tree. */
  ghost predicate Progress(t: Tree, u: Tree, keys: seq<Option<Key>>, rows: seq<nat>, i: nat)
    requires i <= |keys| == |rows|
  {
    Entries(u) == Entries(t) + BatchEntries(keys[..i], rows[..i])
  }

  lemma ProgressNext(t: Tree, u: Tree, u': Tree, keys: seq<Option<Key>>, rows: seq<nat>, i: nat, entry: Option<nat>)
    requires i < |keys| == |rows| && Progress(t, u, keys, rows, i)
    requires Stage(u, u', keys[i], rows[i], entry)
    ensures Progress(t, u', keys, rows, i + 1)
  {
    BatchPush(keys, rows, i);
    if entry.None? {
      assert keys[i].None? && u' == u;
    } else {
      InsertEntries(u, entry.value, IndexEntry(keys[i].value, rows[i]));
      SumAssociates(Entries(t), BatchEntries(keys[..i], rows[..i]), multiset{IndexEntry(keys[i].value, rows[i])});
    }
  }

  lemma {:induction false} BatchKeys(keys: seq<Option<Key>>, rows: seq<nat>, e: IndexEntry)
    requires |keys| == |rows| && e in BatchEntries(keys, rows)
    ensures exists i :: 0 <= i < |keys| && keys[i] == Some(e.key) && rows[i] == e.row
  {
    var n := |keys| - 1;
    if e in BatchEntries(keys[..n], rows[..n]) {
      BatchKeys(keys[..n], rows[..n], e);
      var i :| 0 <= i < n && keys[..n][i] == Some(e.key) && rows[..n][i] == e.row;
      assert keys[i] == Some(e.key) && rows[i] == e.row;
    }
  }

  /** Keys of the width of the index, without NULL, and all different. */
  ghost predicate GoodKeys(keys: seq<Option<Key>>, width: nat) {
    && (forall i :: 0 <= i < |keys| && keys[i].Some? ==> |keys[i].value| == width && NULL_VALUE !in keys[i].value)
    && (forall i, j :: 0 <= i < j < |keys| && keys[i].Some? ==> keys[i] != keys[j])
  }

  ghost predicate KeyAcceptable(s: DataTable.Scene, t: Tree, ignored: set<nat>, key: Option<Key>, columns: seq<nat>, allowNulls: bool) {
    if key.None? then allowNulls else KeyFree(s, t, ignored, key.value, columns)
  }

  ghost predicate Acceptable(s: DataTable.Scene, t: Tree, ignored: set<nat>, keys: seq<Option<Key>>, columns: seq<nat>, allowNulls: bool) {
    forall i :: 0 <= i < |keys| ==> KeyAcceptable(s, t, ignored, keys[i], columns, allowNulls)
  }

  ghost predicate RowsKnown(t: Tree, count: nat) {
    forall e :: e in Entries(t) ==> e.row < count
  }

  /** The nodes that a batch has added so far do not have the next key. */
  lemma NextKeyIsNew(s: DataTable.Scene, t: Tree, u: Tree, keys: seq<Option<Key>>, rows: seq<nat>, i: nat, ignored: set<nat>, columns: seq<nat>)
    requires i < |keys| == |rows| && keys[i].Some? && GoodKeys(keys, |columns|) && RowsKnown(t, |s.rows|)
    requires Progress(t, u, keys, rows, i)
    ensures KeyFree(s, u, ignored, keys[i].value, columns) <==> KeyFree(s, t, ignored, keys[i].value, columns)
    ensures forall e :: e in Entries(u) && e.key == keys[i].value ==> e.row < |s.rows|
  {
    forall e | e in BatchEntries(keys[..i], rows[..i]) ensures e.key != keys[i].value {
      BatchKeys(keys[..i], rows[..i], e);
      var j :| 0 <= j < i && keys[..i][j] == Some(e.key) && rows[..i][j] == e.row;
      assert keys[j] == Some(e.key);
    }
    forall e | e in Entries(u) && e.key == keys[i].value ensures e in Entries(t) {}
  }

  /** Taking back the last node of a batch. */
  lemma StageUndone(t: Tree, t': Tree, key: Option<Key>, row: nat, id: nat)
    requires Stage(t, t', key, row, Some(id))
    ensures t'.Node? && IsLeafNode(t', id) && (if t'.id == id then Beheaded(t') else Pruned(t', id)) == t
  {
    InsertedIsLeafNode(t, id, IndexEntry(key.value, row));
    PruneUndoesInsert(t, id, IndexEntry(key.value, row));
  }

  class UniqueIndex {
    const table: DataTable.DataTable
    const columns: seq<nat>
    const allowNulls: bool
    var root: Option<nat>
    var nodes: seq<IndexNode>
    ghost var tree: Tree

    /** A search tree, linked downwards. */
    ghost predicate Tidy()
      reads this
    {
      root == Pointer(tree) && Linked(nodes, tree) && Proper(tree) && Ordered(tree)
    }

    /** A search tree, linked both ways. */
    ghost predicate Whole()
      reads this
    {
      Tidy() && Parents(nodes, tree, None)
    }

    /** Whole().  The counter keeps it closed where only its preservation matters. */
    ghost predicate Closed(n: nat := CLOSED)
      reads this
      decreases |nodes|, n
    {
      if n == 0 then Whole() else Closed(n - 1)
    }

    ghost predicate Valid()
      reads this
    {
      Closed()
    }

    lemma {:induction false} Open(n: nat := CLOSED)
      ensures Closed(n) == Whole()
      decreases n
    {
      if n > 0 { Open(n - 1); }
    }

    constructor (table: DataTable.DataTable, columns: seq<nat>, allowNulls: bool)
      ensures Valid() && tree == Leaf && this.table == table && this.columns == columns && this.allowNulls == allowNulls
    {
      this.table, this.columns, this.allowNulls := table, columns, allowNulls;
      root, nodes, tree := None, [], Leaf;
      new;
      Open();
    }

    /** Checks a node with the same key against the versions of its row. */
    method CheckNode(id: nat, number: nat, ignored: set<nat>, key: Key) returns (conflict: bool)
      requires table.Valid() && IsActive(After(table.engine.history), id)
      requires number < |DataTable.Rows(table.chunks)| && |key| == |columns| && NULL_VALUE !in key
      ensures conflict == NodeBlocks(table.SceneOf(id), IndexEntry(key, number), ignored, key, columns)
    {
      var engine := table.engine;
      var chunk := table.GetChunk(number);
      var k := chunk.value;
      var offset := number - table.chunks[k].start;
      table.SlotOfRow(k, offset);
      var slot := table.chunks[k].slots[offset];
      engine.SlotShows(slot);
      conflict := true;
      if number !in ignored {
        if engine.storage.deleted[slot] {
          conflict := false;
        } else {
          conflict := KeyMatches(key, columns, engine.storage.columns[slot]);
        }
      } else {
        conflict := false;
      }
      if !conflict {
        conflict := VersionsBlock(id, slot, key);
      }
    }

    method VersionsBlock(id: nat, slot: nat, key: Key) returns (conflict: bool)
      requires table.engine.Valid() && IsActive(After(table.engine.history), id) && slot in After(table.engine.history).cells
      requires |key| == |columns| && NULL_VALUE !in key
      ensures conflict == HiddenHas(After(table.engine.history).cells[slot], table.engine.ReaderOf(id), key, columns)
    {
      var engine := table.engine;
      engine.Open();
      var i := engine.Position(id);
      conflict := VersionsHave(engine.storage, slot, engine.activeTransactions[i].id, engine.activeTransactions[i].startTime, key, columns);
    }

    /** The descent: it stops at the first node that blocks the key, or reaches the place for a new node. */
    method Descend(id: nat, key: Key, ignored: set<nat>) returns (free: bool, prev: nat)
      requires Tidy() && tree.Node? && table.Valid() && IsActive(After(table.engine.history), id)
      requires |key| == |columns| && NULL_VALUE !in key
      requires forall e :: e in Entries(tree) && e.key == key ==> e.row < |DataTable.Rows(table.chunks)|
      ensures free == KeyFree(table.SceneOf(id), tree, ignored, key, columns)
      ensures free ==> prev == Bottom(tree, key)
    {
      ghost var s, sub := table.SceneOf(id), tree;
      PathBegins(s, tree, ignored, key, columns);
      var entry := root;
      prev := 0;
      while entry.Some?
        invariant entry == Pointer(sub) && Linked(nodes, sub) && PathDecides(s, tree, sub, ignored, key, columns)
        invariant if sub.Leaf? then prev == Bottom(tree, key) else Bottom(sub, key) == Bottom(tree, key)
        decreases sub
      {
        var node := nodes[entry.value];
        assert sub.entry in OnPath(sub, key);
        CompareOrders(node.tuple, key);
        var cmp := Compare(node.tuple, key);
        if cmp == 0 {
          var conflict := CheckNode(id, node.row, ignored, key);
          if conflict {
            return false, prev;
          }
        }
        PathStep(s, tree, sub, ignored, key, columns);
        prev := entry.value;
        if cmp < 0 {
          entry, sub := node.left, sub.left;
        } else {
          entry, sub := node.right, sub.right;
        }
      }
      free := true;
    }

    /** Adds a node for a key unless some node blocks it. */
    method AddEntry(id: nat, key: Key, row: nat, ignored: set<nat>) returns (added: Option<nat>)
      requires Valid() && table.Valid() && IsActive(After(table.engine.history), id)
      requires |key| == |columns| && NULL_VALUE !in key
      requires forall e :: e in Entries(tree) && e.key == key ==> e.row < |DataTable.Rows(table.chunks)|
      modifies this
      ensures Valid() && (added.Some? <==> KeyFree(table.SceneOf(id), old(tree), ignored, key, columns))
      ensures added.None? ==> tree == old(tree) && nodes == old(nodes)
      ensures added.Some? ==>
        && added.value == |old(nodes)| && |nodes| == |old(nodes)| + 1 && added.value !in Ids(old(tree))
        && tree == Insert(old(tree), added.value, IndexEntry(key, row))
    {
      Open();
      if root.None? {
        AddRoot(key, row);
        Open();
        return root;
      }
      var free, prev := Descend(id, key, ignored);
      if !free {
        return None;
      }
      HangBelow(prev, key, row);
      Open();
      return Some(|nodes| - 1);
    }

    method AddRoot(key: Key, row: nat)
      requires Whole() && tree == Leaf
      modifies this
      ensures Whole() && |nodes| == |old(nodes)| + 1 && tree == Insert(Leaf, |old(nodes)|, IndexEntry(key, row)) && root == Some(|old(nodes)|)
    {
      nodes := nodes + [IndexNode(key, row, None, None, None)];
      root, tree := Some(|nodes| - 1), Insert(tree, |nodes| - 1, IndexEntry(key, row));
    }

    method HangBelow(prev: nat, key: Key, row: nat)
      requires Whole() && tree.Node? && prev == Bottom(tree, key)
      modifies this
      ensures Whole() && |nodes| == |old(nodes)| + 1 && |old(nodes)| !in Ids(old(tree))
      ensures tree == Insert(old(tree), |old(nodes)|, IndexEntry(key, row))
    {
      ghost var was, e := nodes, IndexEntry(key, row);
      IdsKnown(nodes, tree);
      Hang(prev, IndexNode(key, row, Some(prev), None, None));
      InsertIsTree(was, nodes, tree, e);
      tree := Insert(tree, |was|, e);
    }

    method Hang(prev: nat, node: IndexNode)
      requires prev < |nodes|
      modifies this`nodes
      ensures Hung(old(nodes), nodes, prev, node)
    {
      if Less(nodes[prev].tuple, node.tuple) {
        nodes := nodes[prev := nodes[prev].(left := Some(|nodes|))] + [node];
      } else {
        nodes := nodes[prev := nodes[prev].(right := Some(|nodes|))] + [node];
      }
    }

    /** Takes a childless node, or the root, out of the tree.  The children of a removed root keep their old parent
        pointers. */
    method RemoveEntry(entry: nat)
      requires Whole() && tree.Node? && (tree.id == entry || IsLeafNode(tree, entry))
      modifies this
      ensures Tidy() && |nodes| == |old(nodes)|
      ensures tree == if old(tree).id == entry then Beheaded(old(tree)) else Pruned(old(tree), entry)
      ensures Whole() <==> IsLeafNode(old(tree), entry)
    {
      LeafRoot(tree);
      if tree.id != entry {
        LeafNodeInside(tree, entry);
        ParentInside(nodes, tree, None, entry);
      }
      if nodes[entry].parent.None? {
        RemoveRoot();
      } else {
        RemoveLeaf(entry);
      }
    }

    /** Removes a node that has no children, as an added one has until others are added. */
    method RemoveAdded(entry: nat)
      requires Valid() && tree.Node? && IsLeafNode(tree, entry)
      modifies this
      ensures Valid() && tree == if old(tree).id == entry then Beheaded(old(tree)) else Pruned(old(tree), entry)
    {
      Open();
      RemoveEntry(entry);
      Open();
    }

    method RemoveRoot()
      requires Whole() && tree.Node?
      modifies this
      ensures Tidy() && |nodes| == |old(nodes)| && tree == Beheaded(old(tree))
      ensures Parents(nodes, tree, None) <==> old(tree).left.Leaf? && old(tree).right.Leaf?
    {
      BeheadKeepsNodes(tree);
      BeheadKeepsOrder(tree);
      var entry := nodes[root.value];
      if entry.left.Some? && entry.right.Some? {
        ghost var was := nodes;
        SpliceRoot(entry.left.value, entry.right.value, tree);
        SpliceIsTree(was, nodes, tree);
        root := entry.left;
      } else {
        OneChildStale(nodes, tree);
        root := if entry.left.Some? then entry.left else entry.right;
      }
      tree := Beheaded(tree);
    }

    /** Hangs the right subtree of the left child below the leftmost node of the right one, and the right one below the left child. */
    method SpliceRoot(left: nat, right: nat, ghost t: Tree)
      requires t.Node? && t.left.Node? && t.right.Node? && left == t.left.id && right == t.right.id && Linked(nodes, t)
      modifies this`nodes
      ensures Spliced(old(nodes), nodes, t)
    {
      RootChildren(nodes, t);
      if nodes[left].right.Some? {
        var n := Leftmost(right, t.right);
        SetLeft(n, nodes[left].right);
      }
      SetRight(left, Some(right));
    }

    method SetLeft(n: nat, p: Option<nat>)
      requires n < |nodes|
      modifies this`nodes
      ensures |nodes| == |old(nodes)|
      ensures forall i :: 0 <= i < |nodes| ==> nodes[i] == if i == n then old(nodes)[i].(left := p) else old(nodes)[i]
    {
      nodes := nodes[n := nodes[n].(left := p)];
    }

    method SetRight(n: nat, p: Option<nat>)
      requires n < |nodes|
      modifies this`nodes
      ensures |nodes| == |old(nodes)|
      ensures forall i :: 0 <= i < |nodes| ==> nodes[i] == if i == n then old(nodes)[i].(right := p) else old(nodes)[i]
    {
      nodes := nodes[n := nodes[n].(right := p)];
    }

    method Leftmost(top: nat, ghost t: Tree) returns (n: nat)
      requires t.Node? && t.id == top && Linked(nodes, t)
      ensures n == LeftmostId(t) && n < |nodes|
    {
      n := top;
      ghost var sub := t;
      while nodes[n].left.Some?
        invariant sub.Node? && n == sub.id && Linked(nodes, sub) && LeftmostId(sub) == LeftmostId(t)
        decreases sub
      {
        n, sub := nodes[n].left.value, sub.left;
      }
    }

    method RemoveLeaf(entry: nat)
      requires Whole() && tree.Node? && tree.id != entry && IsLeafNode(tree, entry)
      modifies this
      ensures Whole() && |nodes| == |old(nodes)| && tree == Pruned(old(tree), entry)
    {
      ghost var was := nodes;
      LeafIsKnown(nodes, tree, entry);
      CutOffNode(nodes[entry].parent.value, entry);
      LeafIsGone(was, nodes, tree, entry);
      tree := Pruned(tree, entry);
    }

    method CutOffNode(parent: nat, entry: nat)
      requires parent < |nodes|
      modifies this`nodes
      ensures CutOff(old(nodes), nodes, parent, entry)
    {
      if nodes[parent].left == Some(entry) {
        nodes := nodes[parent := nodes[parent].(left := None)];
      } else {
        nodes := nodes[parent := nodes[parent].(right := None)];
      }
    }

    /** Removes the nodes of a batch again, last one first; every remaining node is as it was before the batch. */
    method TakeBack(added: seq<Option<nat>>, ghost trees: seq<Tree>, ghost keys: seq<Option<Key>>, ghost rows: seq<nat>, ghost was: seq<IndexNode>)
      requires Valid() && |added| <= |keys| == |rows| && Stages(trees, keys, rows, added) && tree == trees[|added|]
      requires Holds(was, trees[0])
      modifies this
      ensures Valid() && tree == trees[0] && root == Pointer(tree) && Restored(was, nodes, tree)
    {
      var j := |added|;
      while j > 0
        invariant 0 <= j <= |added| && Valid() && tree == trees[j]
      {
        assert StageAt(trees, keys, rows, added, j - 1);
        if added[j - 1].Some? {
          StageUndone(trees[j - 1], trees[j], keys[j - 1], rows[j - 1], added[j - 1].value);
          RemoveAdded(added[j - 1].value);
        }
        j := j - 1;
      }
      Open();
      HoldsIs(was, tree);
      SameTreeSameNodes(was, nodes, tree, None);
    }

    /** Adds the key of one row of a batch. */
    method AddNext(id: nat, keys: seq<Option<Key>>, rows: seq<nat>, ignored: set<nat>, i: nat, ghost t: Tree) returns (ok: bool, entry: Option<nat>)
      requires Valid() && table.Valid() && IsActive(After(table.engine.history), id) && RowsKnown(t, |DataTable.Rows(table.chunks)|)
      requires i < |keys| == |rows| && GoodKeys(keys, |columns|) && Progress(t, tree, keys, rows, i)
      modifies this
      ensures Valid() && (ok <==> KeyAcceptable(table.SceneOf(id), t, ignored, keys[i], columns, allowNulls))
      ensures !ok ==> tree == old(tree)
      ensures ok ==> Stage(old(tree), tree, keys[i], rows[i], entry) && Progress(t, tree, keys, rows, i + 1)
    {
      entry := None;
      if keys[i].None? {
        ProgressNext(t, tree, tree, keys, rows, i, entry);
        return allowNulls, entry;
      }
      NextKeyIsNew(table.SceneOf(id), t, tree, keys, rows, i, ignored, columns);
      ghost var u := tree;
      entry := AddEntry(id, keys[i].value, rows[i], ignored);
      ok := entry.Some?;
      if ok { ProgressNext(t, u, tree, keys, rows, i, entry); }
    }

    /** The state after the first keys of a batch. */
    ghost predicate Adding(s: DataTable.Scene, t: Tree, trees: seq<Tree>, keys: seq<Option<Key>>, rows: seq<nat>, ignored: set<nat>, added: seq<Option<nat>>)
      requires |added| <= |keys| == |rows|
      reads this
    {
      && Valid() && Stages(trees, keys, rows, added) && trees[0] == t && tree == trees[|added|]
      && Progress(t, tree, keys, rows, |added|)
      && forall j :: 0 <= j < |added| ==> KeyAcceptable(s, t, ignored, keys[j], columns, allowNulls)
    }

    /** Adds the next key of a batch, or takes the whole batch back. */
    method AddOrTakeBack(id: nat, keys: seq<Option<Key>>, rows: seq<nat>, ignored: set<nat>, added: seq<Option<nat>>,
                         ghost t: Tree, ghost trees: seq<Tree>, ghost was: seq<IndexNode>) returns (ok: bool, entry: Option<nat>)
      requires table.Valid() && IsActive(After(table.engine.history), id) && RowsKnown(t, |DataTable.Rows(table.chunks)|)
      requires |added| < |keys| == |rows| && GoodKeys(keys, |columns|) && Adding(table.SceneOf(id), t, trees, keys, rows, ignored, added)
      requires Holds(was, t)
      modifies this
      ensures ok ==> Adding(table.SceneOf(id), t, trees + [tree], keys, rows, ignored, added + [entry])
      ensures !ok ==> Valid() && tree == t && root == Pointer(t) && Restored(was, nodes, t)
      ensures ok <==> KeyAcceptable(table.SceneOf(id), t, ignored, keys[|added|], columns, allowNulls)
    {
      ok, entry := AddNext(id, keys, rows, ignored, |added|, t);
      if !ok {
        TakeBack(added, trees, keys, rows, was);
        return;
      }
      StagesPush(trees, keys, rows, added, tree, entry);
    }

    /** Adds the keys of a batch of rows; if one of them cannot be added, the tree is as it was. */
    method AddEntries(id: nat, keys: seq<Option<Key>>, rows: seq<nat>, ignored: set<nat>)
        returns (ok: bool, added: seq<Option<nat>>, ghost trees: seq<Tree>)
      requires Valid() && table.Valid() && IsActive(After(table.engine.history), id) && RowsKnown(tree, |DataTable.Rows(table.chunks)|)
      requires |keys| == |rows| && GoodKeys(keys, |columns|)
      modifies this
      ensures Valid()
      ensures ok <==> Acceptable(table.SceneOf(id), old(tree), ignored, keys, columns, allowNulls)
      ensures ok ==> Entries(tree) == Entries(old(tree)) + BatchEntries(keys, rows)
      ensures ok ==> |added| == |keys| && Stages(trees, keys, rows, added) && trees[0] == old(tree) && trees[|added|] == tree
      ensures !ok ==> root == old(root) && tree == old(tree) && Restored(old(nodes), nodes, tree)
    {
      NodesHold();
      ghost var s, t, was := table.SceneOf(id), tree, nodes;
      added, trees := [], [tree];
      while |added| < |keys|
        invariant |added| <= |keys| && Adding(s, t, trees, keys, rows, ignored, added)
        decreases |keys| - |added|
      {
        var entry;
        ok, entry := AddOrTakeBack(id, keys, rows, ignored, added, t, trees, was);
        if !ok {
          return;
        }
        added, trees := added + [entry], trees + [tree];
      }
      assert keys[..|added|] == keys && rows[..|added|] == rows;
      ok := true;
    }

    lemma NodesHold()
      requires Valid()
      ensures Holds(nodes, tree) && root == Pointer(tree)
    {
      Open();
      HoldsIs(nodes, tree);
    }

    lemma StagesPush(trees: seq<Tree>, keys: seq<Option<Key>>, rows: seq<nat>, added: seq<Option<nat>>, t: Tree, entry: Option<nat>)
      requires |added| < |keys| == |rows| && Stages(trees, keys, rows, added)
      requires Stage(trees[|added|], t, keys[|added|], rows[|added|], entry)
      ensures Stages(trees + [t], keys, rows, added + [entry])
    {
      forall j: nat | j < |added| + 1 ensures StageAt(trees + [t], keys, rows, added + [entry], j) {
        if j < |added| { assert StageAt(trees, keys, rows, added, j); }
      }
    }
  }
}
