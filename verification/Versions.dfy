/** The version chain of one row or one catalog name, and what a transaction reads through it.

  A row keeps its newest value in the base table and one undo record per overwrite, each holding
  the value before that overwrite and the stamp of the transaction that did it.  A catalog name
  keeps a list of nodes, each with its own stamp.  Both are the same list: contents newest first,
  with a stamp on the border between each content and the one before it. */
module Versions {
  /** Transaction ids start here; start times and commit ids stay below. */
  const TRANSACTION_ID_START: nat := 0x1_0000_0000

  /** How many rows a chunk that travels between operators can hold. */
  const STANDARD_VECTOR_SIZE: nat := 1024

  /** How deep a closed definition is wrapped.  Some functions and predicates are named twice, the second time with a
      counter that adds nothing to their meaning: the definition opens when the counter reaches 0, and the verifier does
      not follow it that far by itself.  A lemma beside each says that the counter does not matter. */
  const CLOSED: nat := 4

  predicate AllDistinct<T(==)>(s: seq<T>) {
    forall i, j :: 0 <= i < j < |s| ==> s[i] != s[j]
  }

  lemma JoinAssociates<T>(a: seq<T>, b: seq<T>, c: seq<T>)
    ensures a + b + c == a + (b + c)
  {
  }

  lemma SumAssociates<T>(a: multiset<T>, b: multiset<T>, c: multiset<T>)
    ensures a + b + c == a + (b + c)
  {
  }

  datatype Option<+T> = None | Some(value: T)

  /** `before` is None when the overwrite created the row or name. */
  datatype Rec<+T> = Rec(stamp: nat, before: Option<T>)

  /** `cur` is None for a deleted or not yet existing row or name. */
  datatype Cell<+T> = Cell(cur: Option<T>, undo: seq<Rec<T>>)

  datatype Reader = Reader(id: nat, start: nat)

  predicate Sees(r: Reader, stamp: nat) {
    stamp == r.id || stamp < r.start
  }

  predicate Uncommitted(stamp: nat) {
    TRANSACTION_ID_START <= stamp
  }

  /** The cell as it was before its newest overwrite. */
  function Pop<T>(c: Cell<T>): Cell<T>
    requires c.undo != []
  {
    Cell(c.undo[0].before, c.undo[1..])
  }

  /** What a reader sees: the newest content whose overwrite it is allowed to see. */
  function Visible<T>(c: Cell<T>, r: Reader): Option<T>
    decreases |c.undo|
  {
    if c.undo == [] || Sees(r, c.undo[0].stamp) then c.cur else Visible(Pop(c), r)
  }

  /** The newest committed content. */
  function CommittedValue<T>(c: Cell<T>): Option<T>
    decreases |c.undo|
  {
    if c.undo == [] || !Uncommitted(c.undo[0].stamp) then c.cur else CommittedValue(Pop(c))
  }

  predicate OwnedBy<T>(c: Cell<T>, id: nat) {
    c.undo != [] && c.undo[0].stamp == id
  }

  /** A write by somebody else that has not committed blocks the cell. */
  predicate Conflicts<T>(c: Cell<T>, id: nat) {
    c.undo != [] && Uncommitted(c.undo[0].stamp) && c.undo[0].stamp != id
  }

  function Overwrite<T>(c: Cell<T>, id: nat, v: Option<T>): Cell<T> {
    Cell(v, [Rec(id, c.cur)] + c.undo)
  }

  function Restamp<T>(c: Cell<T>, id: nat, commitId: nat): Cell<T> {
    Cell(c.cur, seq(|c.undo|, i requires 0 <= i < |c.undo| =>
      if c.undo[i].stamp == id then c.undo[i].(stamp := commitId) else c.undo[i]))
  }

  function Revert<T>(c: Cell<T>, id: nat): Cell<T>
    decreases |c.undo|
  {
    if OwnedBy(c, id) then Revert(Pop(c), id) else c
  }

  function Keep<T>(undo: seq<Rec<T>>, floor: nat): seq<Rec<T>> {
    if undo == [] then []
    else (if undo[0].stamp < floor then [] else [undo[0]]) + Keep(undo[1..], floor)
  }

  function Purge<T>(c: Cell<T>, floor: nat): Cell<T> {
    Cell(c.cur, Keep(c.undo, floor))
  }

  /** Chain shape: uncommitted records of one transaction, then commit ids that never increase. */
  ghost predicate WellFormed<T>(c: Cell<T>) {
    && (forall i :: 0 <= i < |c.undo| && Uncommitted(c.undo[i].stamp) ==> c.undo[i].stamp == c.undo[0].stamp)
    && (forall i, j :: 0 <= i < j < |c.undo| ==> c.undo[j].stamp <= c.undo[i].stamp)
  }

  lemma PopWellFormed<T>(c: Cell<T>)
    requires WellFormed(c) && c.undo != []
    ensures WellFormed(Pop(c))
    ensures !Uncommitted(c.undo[0].stamp) ==> forall i :: 0 <= i < |c.undo| ==> !Uncommitted(c.undo[i].stamp)
  {
    var p := Pop(c);
    assert forall i :: 0 <= i < |p.undo| ==> p.undo[i] == c.undo[i + 1];
  }

  lemma OverwriteWellFormed<T>(c: Cell<T>, id: nat, v: Option<T>)
    requires WellFormed(c) && Uncommitted(id) && !Conflicts(c, id)
    ensures WellFormed(Overwrite(c, id, v))
  {
    var o := Overwrite(c, id, v);
    assert Pop(o) == Cell(c.cur, c.undo);
    assert forall i :: 0 < i < |o.undo| ==> o.undo[i] == c.undo[i - 1];
  }

  /** A write changes no read but the writer's own, which becomes the written value. */
  lemma OverwriteReads<T>(c: Cell<T>, id: nat, v: Option<T>, r: Reader)
    ensures Sees(r, id) ==> Visible(Overwrite(c, id, v), r) == v
    ensures !Sees(r, id) ==> Visible(Overwrite(c, id, v), r) == Visible(c, r)
  {
    assert Pop(Overwrite(c, id, v)) == c;
  }

  lemma OverwriteCommitted<T>(c: Cell<T>, id: nat, v: Option<T>)
    requires Uncommitted(id)
    ensures CommittedValue(Overwrite(c, id, v)) == CommittedValue(c)
  {
    assert Pop(Overwrite(c, id, v)) == c;
  }

  /** Reverting undoes every write of the transaction, whatever it wrote and however often. */
  lemma RevertOverwrite<T>(c: Cell<T>, id: nat, v: Option<T>)
    ensures Revert(Overwrite(c, id, v), id) == Revert(c, id)
  {
    assert Pop(Overwrite(c, id, v)) == c;
  }

  function Overwrites<T>(c: Cell<T>, id: nat, vs: seq<Option<T>>): Cell<T>
    decreases |vs|
  {
    if vs == [] then c else Overwrites(Overwrite(c, id, vs[0]), id, vs[1..])
  }

  /** Rolling back after any number of writes restores contents, deleted flag and chain exactly. */
  lemma {:induction false} RevertRestores<T>(c: Cell<T>, id: nat, vs: seq<Option<T>>)
    requires !OwnedBy(c, id)
    ensures Revert(Overwrites(c, id, vs), id) == c
  {
    RevertOverwritesSame(c, id, vs);
  }

  lemma {:induction false} RevertOverwritesSame<T>(c: Cell<T>, id: nat, vs: seq<Option<T>>)
    ensures Revert(Overwrites(c, id, vs), id) == Revert(c, id)
    decreases |vs|
  {
    if vs != [] {
      RevertOverwritesSame(Overwrite(c, id, vs[0]), id, vs[1..]);
      RevertOverwrite(c, id, vs[0]);
    }
  }

  /** What a write leaves behind: the undo record holds the old data but not the deleted flag. */
  function Touched<T>(c: Cell<T>, data: T, id: nat, v: Option<T>): Cell<T> {
    Cell(v, [Rec(id, Some(data))] + c.undo)
  }

  /** Rolling a write back restores the cell exactly when the row was live. */
  lemma TouchedRevertsIffLive<T>(c: Cell<T>, data: T, id: nat, v: Option<T>)
    requires !OwnedBy(c, id) && (c.cur.Some? ==> c.cur.value == data)
    ensures Revert(Touched(c, data, id, v), id) == c <==> c.cur.Some?
    ensures c.cur.Some? ==> Touched(c, data, id, v) == Overwrite(c, id, v)
  {
    TouchedPops(c, data, id, v);
  }

  lemma TouchedPops<T>(c: Cell<T>, data: T, id: nat, v: Option<T>)
    ensures Pop(Touched(c, data, id, v)) == Cell(Some(data), c.undo)
  {
  }

  lemma TouchedWellFormed<T>(c: Cell<T>, data: T, id: nat, v: Option<T>)
    requires WellFormed(c) && Uncommitted(id) && !Conflicts(c, id)
    ensures WellFormed(Touched(c, data, id, v))
  {
    assert forall i :: 0 < i <= |c.undo| ==> Touched(c, data, id, v).undo[i] == c.undo[i - 1];
  }

  /** Whoever does not see the write reads what he read before, unless he saw the row as it was on top: then he reads the
      old data, even when the row had been deleted. */
  lemma TouchedReads<T>(c: Cell<T>, data: T, id: nat, v: Option<T>, r: Reader)
    ensures Sees(r, id) ==> Visible(Touched(c, data, id, v), r) == v
    ensures !Sees(r, id) ==>
      Visible(Touched(c, data, id, v), r) == (if c.undo == [] || Sees(r, c.undo[0].stamp) then Some(data) else Visible(c, r))
  {
    TouchedPops(c, data, id, v);
    if c.undo != [] { assert Pop(Cell(Some(data), c.undo)) == Pop(c); }
  }

  lemma TouchedCommitted<T>(c: Cell<T>, data: T, id: nat, v: Option<T>)
    requires Uncommitted(id)
    ensures CommittedValue(Touched(c, data, id, v))
         == if c.undo == [] || !Uncommitted(c.undo[0].stamp) then Some(data) else CommittedValue(c)
  {
    TouchedPops(c, data, id, v);
    if c.undo != [] { assert Pop(Cell(Some(data), c.undo)) == Pop(c); }
  }

  /** On top of an earlier write of its own, such a write is undone like any other. */
  lemma TouchedReverts<T>(c: Cell<T>, data: T, id: nat, v: Option<T>)
    ensures Revert(Touched(c, data, id, v), id) == if OwnedBy(c, id) then Revert(c, id) else Cell(Some(data), c.undo)
  {
    TouchedPops(c, data, id, v);
    if OwnedBy(c, id) { assert Pop(Cell(Some(data), c.undo)) == Pop(c); }
  }

  lemma {:induction false} RevertReads<T>(c: Cell<T>, id: nat, r: Reader)
    requires !Sees(r, id)
    ensures Visible(Revert(c, id), r) == Visible(c, r)
    decreases |c.undo|
  {
    if OwnedBy(c, id) {
      RevertReads(Pop(c), id, r);
    }
  }

  lemma {:induction false} RevertCommitted<T>(c: Cell<T>, id: nat)
    requires Uncommitted(id)
    ensures CommittedValue(Revert(c, id)) == CommittedValue(c)
    decreases |c.undo|
  {
    if OwnedBy(c, id) {
      RevertCommitted(Pop(c), id);
    }
  }

  lemma {:induction false} RevertKeepsOwner<T>(c: Cell<T>, id: nat, other: nat)
    requires WellFormed(c) && Uncommitted(id) && Uncommitted(other) && id != other
    ensures OwnedBy(Revert(c, id), other) <==> OwnedBy(c, other)
    decreases |c.undo|
  {
    if OwnedBy(c, id) {
      PopWellFormed(c);
      assert !OwnedBy(Pop(c), other);
      RevertKeepsOwner(Pop(c), id, other);
    }
  }

  /** Reverting leaves a suffix of the chain in which the transaction has no record. */
  lemma {:induction false} RevertShape<T>(c: Cell<T>, id: nat)
    requires WellFormed(c) && Uncommitted(id)
    ensures WellFormed(Revert(c, id))
    ensures |Revert(c, id).undo| <= |c.undo|
    ensures Revert(c, id).undo == c.undo[|c.undo| - |Revert(c, id).undo|..]
    ensures forall i :: 0 <= i < |Revert(c, id).undo| ==> Revert(c, id).undo[i].stamp != id
    decreases |c.undo|
  {
    if OwnedBy(c, id) {
      PopWellFormed(c);
      RevertShape(Pop(c), id);
    }
  }

  lemma RestampPop<T>(c: Cell<T>, id: nat, commitId: nat)
    requires c.undo != []
    ensures Pop(Restamp(c, id, commitId)) == Restamp(Pop(c), id, commitId)
  {
  }

  /** Committing changes no read of a transaction that started earlier. */
  lemma {:induction false} RestampReads<T>(c: Cell<T>, id: nat, commitId: nat, r: Reader)
    requires !Sees(r, id) && !Sees(r, commitId)
    ensures Visible(Restamp(c, id, commitId), r) == Visible(c, r)
    decreases |c.undo|
  {
    if c.undo != [] && !Sees(r, c.undo[0].stamp) {
      RestampPop(c, id, commitId);
      RestampReads(Pop(c), id, commitId, r);
    }
  }

  /** Committing publishes the contents of exactly the cells the committer wrote. */
  lemma {:induction false} RestampCommitted<T>(c: Cell<T>, id: nat, commitId: nat)
    requires WellFormed(c) && Uncommitted(id) && !Uncommitted(commitId)
    ensures CommittedValue(Restamp(c, id, commitId)) == if OwnedBy(c, id) then c.cur else CommittedValue(c)
    decreases |c.undo|
  {
    if c.undo != [] && !OwnedBy(c, id) && Uncommitted(c.undo[0].stamp) {
      PopWellFormed(c);
      RestampPop(c, id, commitId);
      RestampCommitted(Pop(c), id, commitId);
    }
  }

  lemma RestampShape<T>(c: Cell<T>, id: nat, commitId: nat)
    requires WellFormed(c) && Uncommitted(id) && !Uncommitted(commitId)
    requires forall i :: 0 <= i < |c.undo| && !Uncommitted(c.undo[i].stamp) ==> c.undo[i].stamp <= commitId
    ensures WellFormed(Restamp(c, id, commitId))
  {
    var d := Restamp(c, id, commitId);
    forall i, j | 0 <= i < j < |d.undo| ensures d.undo[j].stamp <= d.undo[i].stamp {
      assert c.undo[j].stamp <= c.undo[i].stamp;
      assert Uncommitted(c.undo[i].stamp) ==> c.undo[i].stamp == c.undo[0].stamp;
      assert Uncommitted(c.undo[j].stamp) ==> c.undo[j].stamp == c.undo[0].stamp;
    }
  }

  lemma {:induction false} KeepIsPrefix<T>(undo: seq<Rec<T>>, floor: nat)
    requires forall i, j :: 0 <= i < j < |undo| ==> undo[j].stamp <= undo[i].stamp
    ensures |Keep(undo, floor)| <= |undo|
    ensures Keep(undo, floor) == undo[..|Keep(undo, floor)|]
    ensures forall i :: 0 <= i < |undo| ==> (undo[i].stamp < floor <==> |Keep(undo, floor)| <= i)
  {
    if undo != [] {
      var t := undo[1..];
      assert forall i, j :: 0 <= i < j < |t| ==> t[i] == undo[i + 1] && t[j] == undo[j + 1];
      KeepIsPrefix(t, floor);
      if undo[0].stamp < floor {
        assert forall i :: 0 <= i < |t| ==> t[i].stamp < floor;
      } else {
        assert Keep(undo, floor) == [undo[0]] + t[..|Keep(t, floor)|];
        forall i | 0 <= i < |undo| ensures undo[i].stamp < floor <==> |Keep(undo, floor)| <= i {
          if i > 0 { assert undo[i] == t[i - 1]; }
        }
      }
    }
  }

  /** What is kept does not depend on an old record at the end. */
  lemma {:induction false} KeepSnoc<T>(undo: seq<Rec<T>>, rec: Rec<T>, floor: nat)
    requires rec.stamp < floor
    ensures Keep(undo + [rec], floor) == Keep(undo, floor)
  {
    if undo == [] {
      assert [] + [rec] == [rec] && Keep([rec], floor) == [] + Keep([], floor);
    } else {
      assert (undo + [rec])[1..] == undo[1..] + [rec];
      KeepSnoc(undo[1..], rec, floor);
    }
  }

  /** Dropping an old record first makes no difference to a purge. */
  lemma KeepDropLast<T>(c: Cell<T>, floor: nat)
    requires WellFormed(c) && c.undo != [] && c.undo[|c.undo| - 1].stamp < floor
    ensures Keep(c.undo[..|c.undo| - 1], floor) == Keep(c.undo, floor)
    ensures WellFormed(Cell(c.cur, c.undo[..|c.undo| - 1]))
  {
    var d, last := c.undo[..|c.undo| - 1], c.undo[|c.undo| - 1];
    KeepSnoc(d, last, floor);
    assert d + [last] == c.undo;
  }

  lemma PurgeShape<T>(c: Cell<T>, floor: nat)
    requires WellFormed(c)
    ensures WellFormed(Purge(c, floor))
    ensures |Purge(c, floor).undo| <= |c.undo|
    ensures Purge(c, floor).undo == c.undo[..|Purge(c, floor).undo|]
    ensures forall i :: 0 <= i < |Purge(c, floor).undo| ==> floor <= Purge(c, floor).undo[i].stamp
  {
    KeepIsPrefix(c.undo, floor);
  }

  /** Dropping records older than every reader's start changes no read. */
  lemma {:induction false} PurgeReads<T>(c: Cell<T>, floor: nat, r: Reader)
    requires WellFormed(c) && floor <= r.start
    ensures Visible(Purge(c, floor), r) == Visible(c, r)
    decreases |c.undo|
  {
    if c.undo != [] {
      KeepIsPrefix(c.undo, floor);
      PopWellFormed(c);
      if c.undo[0].stamp >= floor {
        assert Keep(c.undo, floor) == [c.undo[0]] + Keep(c.undo[1..], floor);
        assert Pop(Purge(c, floor)) == Purge(Pop(c), floor);
        PurgeReads(Pop(c), floor, r);
      }
    }
  }

  lemma {:induction false} PurgeCommitted<T>(c: Cell<T>, floor: nat)
    requires WellFormed(c) && floor <= TRANSACTION_ID_START
    ensures CommittedValue(Purge(c, floor)) == CommittedValue(c)
    decreases |c.undo|
  {
    if c.undo != [] {
      KeepIsPrefix(c.undo, floor);
      PopWellFormed(c);
      if c.undo[0].stamp >= floor {
        assert Keep(c.undo, floor) == [c.undo[0]] + Keep(c.undo[1..], floor);
        assert Pop(Purge(c, floor)) == Purge(Pop(c), floor);
        PurgeCommitted(Pop(c), floor);
      }
    }
  }

  /** A transaction that starts now, before the next write, reads the committed contents. */
  lemma {:induction false} FreshReads<T>(c: Cell<T>, r: Reader)
    requires forall i :: 0 <= i < |c.undo| ==> (Sees(r, c.undo[i].stamp) <==> !Uncommitted(c.undo[i].stamp))
    ensures Visible(c, r) == CommittedValue(c)
    decreases |c.undo|
  {
    if c.undo != [] && !Sees(r, c.undo[0].stamp) {
      var p := Pop(c);
      assert forall i :: 0 <= i < |p.undo| ==> p.undo[i] == c.undo[i + 1];
      FreshReads(p, r);
    }
  }
}
