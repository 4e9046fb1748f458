/** The shape of a unique index: an unbalanced tree, greater keys to the left, the others to the right. */
module IndexTree {
  import opened Versions
  import opened Serialization
  import opened Uniqueness

  /** Compares the bytes of two numbers, lowest byte first: not the order of the numbers. */
  function CompareNumbers(a: int, b: int): int
    decreases if a < b then b - a else a - b
  {
    if a == b then 0
    else if a % 0x100 != b % 0x100 then a % 0x100 - b % 0x100
    else CompareNumbers(a / 0x100, b / 0x100)
  }

  /** Compares keys column by column, and each column byte by byte. */
  function Compare(a: Key, b: Key): int {
    if a == [] || b == [] then |a| - |b|
    else if a[0] != b[0] then CompareNumbers(a[0], b[0]) else Compare(a[1..], b[1..])
  }

  predicate Less(a: Key, b: Key) { Compare(a, b) < 0 }

  lemma {:induction false} CompareNumbersOrders(a: int, b: int)
    ensures CompareNumbers(a, b) == -CompareNumbers(b, a)
    ensures CompareNumbers(a, b) == 0 <==> a == b
    decreases if a < b then b - a else a - b
  {
    if a != b && a % 0x100 == b % 0x100 { CompareNumbersOrders(a / 0x100, b / 0x100); }
  }

  lemma {:induction false} CompareNumbersTransitive(a: int, b: int, c: int)
    requires CompareNumbers(a, b) < 0 && CompareNumbers(b, c) < 0
    ensures CompareNumbers(a, c) < 0
    decreases if a < b then b - a else a - b
  {
    CompareNumbersOrders(a, b);
    if a % 0x100 == b % 0x100 == c % 0x100 {
      CompareNumbersTransitive(a / 0x100, b / 0x100, c / 0x100);
      CompareNumbersOrders(a / 0x100, c / 0x100);
    }
  }

  lemma {:induction false} CompareOrders(a: Key, b: Key)
    ensures Compare(a, b) == -Compare(b, a)
    ensures Compare(a, b) == 0 <==> a == b
  {
    if a != [] && b != [] {
      CompareNumbersOrders(a[0], b[0]);
      if a[0] == b[0] { CompareOrders(a[1..], b[1..]); }
      assert a == [a[0]] + a[1..] && b == [b[0]] + b[1..];
    }
  }

  lemma {:induction false} LessTransitive(a: Key, b: Key, c: Key)
    requires Compare(a, b) <= 0 && Compare(b, c) <= 0
    ensures Compare(a, c) <= 0 && (Less(a, b) || Less(b, c) ==> Less(a, c))
  {
    if a != [] && b != [] && c != [] {
      CompareNumbersOrders(a[0], b[0]);
      CompareNumbersOrders(b[0], c[0]);
      if a[0] == b[0] == c[0] {
        LessTransitive(a[1..], b[1..], c[1..]);
      } else if a[0] != b[0] && b[0] != c[0] {
        CompareNumbersTransitive(a[0], b[0], c[0]);
        CompareNumbersOrders(a[0], c[0]);
      }
    }
  }

  // ----- keys as bytes -----

  /** The columns of a key, one after the other. */
  function KeyBytes(key: Key, sizes: seq<nat>): (s: seq<byte>)
    requires |key| == |sizes|
  {
    if key == [] then [] else NumberBytes(key[0], sizes[0]) + KeyBytes(key[1..], sizes[1..])
  }

  ghost predicate KeyFits(key: Key, sizes: seq<nat>) {
    |key| == |sizes| && forall i :: 0 <= i < |key| ==> FitsIn(key[i], sizes[i])
  }

  lemma {:induction false} KeyLength(a: Key, b: Key, sizes: seq<nat>)
    requires |a| == |b| == |sizes|
    ensures |KeyBytes(a, sizes)| == |KeyBytes(b, sizes)|
  {
    if a != [] { KeyLength(a[1..], b[1..], sizes[1..]); }
  }

  lemma {:induction false} MemCmpJoin(a: seq<byte>, b: seq<byte>, c: seq<byte>, d: seq<byte>)
    requires |a| == |b| && |c| == |d|
    ensures MemCmp(a + c, b + d) == if a == b then MemCmp(c, d) else MemCmp(a, b)
  {
    if a == [] {
      assert a + c == c && b + d == d;
    } else {
      assert (a + c)[1..] == a[1..] + c && (b + d)[1..] == b[1..] + d;
      assert a == [a[0]] + a[1..] && b == [b[0]] + b[1..];
      MemCmpJoin(a[1..], b[1..], c, d);
    }
  }

  lemma {:induction false} NumberBytesCompare(a: int, b: int, width: nat)
    requires FitsIn(a, width) && FitsIn(b, width)
    ensures CompareNumbers(a, b) == MemCmp(NumberBytes(a, width), NumberBytes(b, width))
    ensures a == b <==> NumberBytes(a, width) == NumberBytes(b, width)
    decreases width
  {
    SignedRoundTrip(a, width);
    SignedRoundTrip(b, width);
    assert NumberBytes(a, width)[1..] == NumberBytes(a / 0x100, width - 1);
    assert NumberBytes(b, width)[1..] == NumberBytes(b / 0x100, width - 1);
    if width > 1 {
      NumberBytesCompare(a / 0x100, b / 0x100, width - 1);
    }
  }

  /** The order of the tree is the order of the keys' bytes in memory, as one comparison of all bytes finds it. */
  lemma {:induction false} CompareIsOfBytes(a: Key, b: Key, sizes: seq<nat>)
    requires KeyFits(a, sizes) && KeyFits(b, sizes)
    ensures |KeyBytes(a, sizes)| == |KeyBytes(b, sizes)|
    ensures Compare(a, b) == MemCmp(KeyBytes(a, sizes), KeyBytes(b, sizes))
    decreases |a|
  {
    KeyLength(a, b, sizes);
    if a != [] {
      NumberBytesCompare(a[0], b[0], sizes[0]);
      CompareIsOfBytes(a[1..], b[1..], sizes[1..]);
      MemCmpJoin(NumberBytes(a[0], sizes[0]), NumberBytes(b[0], sizes[0]), KeyBytes(a[1..], sizes[1..]), KeyBytes(b[1..], sizes[1..]));
    }
  }

  datatype Tree = Leaf | Node(left: Tree, id: nat, entry: IndexEntry, right: Tree)

  function Ids(t: Tree): set<nat> {
    match t case Leaf => {} case Node(l, id, _, r) => Ids(l) + {id} + Ids(r)
  }

  function Entries(t: Tree): multiset<IndexEntry> {
    match t case Leaf => multiset{} case Node(l, _, e, r) => Entries(l) + multiset{e} + Entries(r)
  }

  /** No node occurs twice. */
  predicate Proper(t: Tree) {
    match t case Leaf => true
    case Node(l, id, _, r) => Proper(l) && Proper(r) && id !in Ids(l) && id !in Ids(r) && Ids(l) !! Ids(r)
  }

  ghost predicate Ordered(t: Tree) {
    match t case Leaf => true
    case Node(l, _, e, r) =>
      && Ordered(l) && Ordered(r)
      && (forall x :: x in Entries(l) ==> Less(e.key, x.key))
      && (forall x :: x in Entries(r) ==> !Less(e.key, x.key))
  }

  function Insert(t: Tree, id: nat, e: IndexEntry): Tree {
    match t
    case Leaf => Node(Leaf, id, e, Leaf)
    case Node(l, m, x, r) => if Less(x.key, e.key) then Node(Insert(l, id, e), m, x, r) else Node(l, m, x, Insert(r, id, e))
  }

  lemma {:induction false} InsertIds(t: Tree, id: nat, e: IndexEntry)
    ensures Ids(Insert(t, id, e)) == Ids(t) + {id}
  {
    match t
    case Leaf =>
    case Node(l, m, x, r) => if Less(x.key, e.key) { InsertIds(l, id, e); } else { InsertIds(r, id, e); }
  }

  lemma {:induction false} InsertEntries(t: Tree, id: nat, e: IndexEntry)
    ensures Entries(Insert(t, id, e)) == Entries(t) + multiset{e}
  {
    match t
    case Leaf =>
    case Node(l, m, x, r) => if Less(x.key, e.key) { InsertEntries(l, id, e); } else { InsertEntries(r, id, e); }
  }

  lemma {:induction false} InsertKeepsProper(t: Tree, id: nat, e: IndexEntry)
    requires Proper(t) && id !in Ids(t)
    ensures Proper(Insert(t, id, e))
  {
    match t
    case Leaf =>
    case Node(l, m, x, r) =>
      InsertIds(l, id, e);
      InsertIds(r, id, e);
      if Less(x.key, e.key) { InsertKeepsProper(l, id, e); } else { InsertKeepsProper(r, id, e); }
  }

  lemma {:induction false} InsertKeepsOrder(t: Tree, id: nat, e: IndexEntry)
    requires Ordered(t)
    ensures Ordered(Insert(t, id, e))
  {
    match t
    case Leaf =>
    case Node(l, m, x, r) =>
      if Less(x.key, e.key) {
        InsertKeepsOrder(l, id, e);
        InsertEntries(l, id, e);
      } else {
        InsertKeepsOrder(r, id, e);
        InsertEntries(r, id, e);
      }
  }

  /** In bytes: the keys on the left of a node are greater, those on the right are not. */
  lemma GreaterOnTheLeft(t: Tree, sizes: seq<nat>, x: IndexEntry)
    requires t.Node? && Ordered(t) && KeyFits(t.entry.key, sizes) && KeyFits(x.key, sizes)
    ensures |KeyBytes(t.entry.key, sizes)| == |KeyBytes(x.key, sizes)|
    ensures x in Entries(t.left) ==> MemCmp(KeyBytes(t.entry.key, sizes), KeyBytes(x.key, sizes)) < 0
    ensures x in Entries(t.right) ==> MemCmp(KeyBytes(t.entry.key, sizes), KeyBytes(x.key, sizes)) >= 0
  {
    CompareIsOfBytes(t.entry.key, x.key, sizes);
  }

  /** The nodes that the descent for a key passes. */
  function OnPath(t: Tree, key: Key): multiset<IndexEntry> {
    match t case Leaf => multiset{}
    case Node(l, _, e, r) => multiset{e} + if Less(e.key, key) then OnPath(l, key) else OnPath(r, key)
  }

  /** The descent for a key meets every node with that key. */
  lemma {:induction false} DescentMeetsEqualKeys(t: Tree, key: Key)
    requires Ordered(t)
    ensures forall e :: e in Entries(t) && e.key == key ==> e in OnPath(t, key)
    ensures OnPath(t, key) <= Entries(t)
  {
    match t
    case Leaf =>
    case Node(l, _, e, r) =>
      DescentMeetsEqualKeys(l, key);
      DescentMeetsEqualKeys(r, key);
  }

  /** The last node of the descent for a key. */
  function Bottom(t: Tree, key: Key): (id: nat)
    requires t.Node?
    ensures id in Ids(t)
  {
    var next := if Less(t.entry.key, key) then t.left else t.right;
    if next.Leaf? then t.id else Bottom(next, key)
  }

  // ----- removing nodes -----

  /** The tree without a node that has no children. */
  function Pruned(t: Tree, id: nat): Tree {
    match t
    case Leaf => Leaf
    case Node(l, m, e, r) => if m == id && l.Leaf? && r.Leaf? then Leaf else Node(Pruned(l, id), m, e, Pruned(r, id))
  }

  lemma {:induction false} PruneAbsent(t: Tree, id: nat)
    requires id !in Ids(t)
    ensures Pruned(t, id) == t
  {
    match t case Leaf => case Node(l, _, _, r) => PruneAbsent(l, id); PruneAbsent(r, id);
  }

  /** Removing the node that came last restores the tree. */
  lemma {:induction false} PruneUndoesInsert(t: Tree, id: nat, e: IndexEntry)
    requires id !in Ids(t)
    ensures Pruned(Insert(t, id, e), id) == t
  {
    match t
    case Leaf =>
    case Node(l, m, x, r) =>
      if Less(x.key, e.key) {
        PruneUndoesInsert(l, id, e);
        PruneAbsent(r, id);
      } else {
        PruneAbsent(l, id);
        PruneUndoesInsert(r, id, e);
      }
  }

  predicate IsLeafNode(t: Tree, id: nat) {
    match t case Leaf => false
    case Node(l, m, _, r) => (m == id && l.Leaf? && r.Leaf?) || IsLeafNode(l, id) || IsLeafNode(r, id)
  }

  lemma {:induction false} InsertedIsLeafNode(t: Tree, id: nat, e: IndexEntry)
    ensures IsLeafNode(Insert(t, id, e), id)
  {
    match t case Leaf =>
    case Node(l, m, x, r) => if Less(x.key, e.key) { InsertedIsLeafNode(l, id, e); } else { InsertedIsLeafNode(r, id, e); }
  }

  /** The tree with another one hung below its leftmost node. */
  function Grafted(t: Tree, u: Tree): Tree {
    match t case Leaf => u case Node(l, id, e, r) => Node(Grafted(l, u), id, e, r)
  }

  /** What is left of a tree without its root: the left child comes to the root, and its right subtree goes below the
      leftmost node of the old right subtree. */
  function Beheaded(t: Tree): Tree
    requires t.Node?
  {
    if t.left.Node? && t.right.Node? then Node(t.left.left, t.left.id, t.left.entry, Grafted(t.right, t.left.right))
    else if t.left.Node? then t.left else t.right
  }

  lemma {:induction false} GraftKeeps(t: Tree, u: Tree)
    ensures Ids(Grafted(t, u)) == Ids(t) + Ids(u)
    ensures Proper(t) && Proper(u) && Ids(t) !! Ids(u) ==> Proper(Grafted(t, u))
  {
    match t case Leaf => case Node(l, _, _, _) => GraftKeeps(l, u);
  }

  lemma {:induction false} GraftEntries(t: Tree, u: Tree)
    ensures Entries(Grafted(t, u)) == Entries(t) + Entries(u)
  {
    match t case Leaf =>
    case Node(l, _, e, r) =>
      GraftEntries(l, u);
      var x, y, z, w := Entries(l), multiset{e}, Entries(r), Entries(u);
      assert (x + w) + y + z == (x + y + z) + w;
  }

  lemma {:induction false} GraftOrdered(t: Tree, u: Tree)
    requires Ordered(t) && Ordered(u)
    requires forall x, y :: x in Entries(t) && y in Entries(u) ==> Less(x.key, y.key)
    ensures Ordered(Grafted(t, u))
  {
    match t case Leaf =>
    case Node(l, _, e, r) =>
      GraftOrdered(l, u);
      GraftEntries(l, u);
      assert e in Entries(t);
  }

  lemma Regroup(x: multiset<IndexEntry>, a: multiset<IndexEntry>, y: multiset<IndexEntry>, r: multiset<IndexEntry>, e: multiset<IndexEntry>)
    ensures (x + a + y) + e + r - e == x + a + (r + y)
  {
  }

  lemma BeheadKeepsNodes(t: Tree)
    requires t.Node? && Proper(t)
    ensures Proper(Beheaded(t)) && Ids(Beheaded(t)) == Ids(t) - {t.id}
  {
    if t.left.Node? && t.right.Node? {
      GraftKeeps(t.right, t.left.right);
    }
  }

  lemma BeheadKeepsEntries(t: Tree)
    requires t.Node?
    ensures Entries(Beheaded(t)) == Entries(t) - multiset{t.entry}
  {
    if t.left.Node? && t.right.Node? {
      GraftEntries(t.right, t.left.right);
      Regroup(Entries(t.left.left), multiset{t.left.entry}, Entries(t.left.right), Entries(t.right), multiset{t.entry});
    }
  }

  /** Removing the root keeps the order and every other node. */
  lemma BeheadKeepsOrder(t: Tree)
    requires t.Node? && Ordered(t) && Proper(t)
    ensures Ordered(Beheaded(t))
  {
    if t.left.Node? && t.right.Node? {
      var a := t.left.entry;
      assert a in Entries(t.left);
      forall x, y | x in Entries(t.right) && y in Entries(t.left) ensures Less(x.key, y.key) {
        CompareOrders(t.entry.key, x.key);
        LessTransitive(x.key, t.entry.key, y.key);
      }
      assert forall y :: y in Entries(t.left.right) ==> y in Entries(t.left);
      GraftOrdered(t.right, t.left.right);
      GraftEntries(t.right, t.left.right);
      forall x | x in Entries(Grafted(t.right, t.left.right)) ensures !Less(a.key, x.key) {
        if x in Entries(t.right) {
          CompareOrders(a.key, x.key);
        }
      }
    }
  }
}
