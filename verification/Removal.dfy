/** Which undo data goes when the committed transactions are cleaned up one after the other. */
module Removal {
  import opened Versions
  import opened Mvcc

  lemma PurgeSame<T>(c: Cell<T>, f: nat, g: nat)
    requires WellFormed(c) && forall i :: 0 <= i < |c.undo| ==> (c.undo[i].stamp < f <==> c.undo[i].stamp < g)
    ensures Purge(c, f) == Purge(c, g)
  {
    KeepIsPrefix(c.undo, f);
    KeepIsPrefix(c.undo, g);
    var k, m := |Keep(c.undo, f)|, |Keep(c.undo, g)|;
    var j := Min(k, m);
    assert j < |c.undo| ==> (c.undo[j].stamp < f <==> c.undo[j].stamp < g);
  }

  lemma KeepCons<T>(r: Rec<T>, t: seq<Rec<T>>, f: nat)
    ensures Keep([r] + t, f) == if r.stamp < f then Keep(t, f) else [r] + Keep(t, f)
  {
    assert ([r] + t)[1..] == t;
  }

  lemma {:induction false} KeepTwice<T>(undo: seq<Rec<T>>, f: nat, g: nat)
    requires f <= g
    ensures Keep(Keep(undo, f), g) == Keep(undo, g)
  {
    if undo != [] {
      var r, t := undo[0], undo[1..];
      KeepTwice(t, f, g);
      KeepCons(r, t, f);
      KeepCons(r, t, g);
      KeepCons(r, Keep(t, f), g);
      assert undo == [r] + t;
    }
  }

  lemma {:induction false} KeepZero<T>(undo: seq<Rec<T>>)
    ensures Keep(undo, 0) == undo
  {
    if undo != [] { KeepZero(undo[1..]); }
  }

  lemma PurgeTwice<T>(c: Cell<T>, f: nat, g: nat)
    requires f <= g
    ensures Purge(Purge(c, f), g) == Purge(c, g)
  {
    KeepTwice(c.undo, f, g);
  }

  /** The stamps gone once the first i committed transactions are cleaned up. */
  ghost function Reached(recent: seq<Committed>, i: nat): nat
    requires i <= |recent|
  {
    if i == 0 then 0 else recent[i - 1].commitId + 1
  }

  /** Everything that committed before the i-th transaction is gone, so nothing older than it is left. */
  lemma NothingBelow<K, T>(s: State<K, T>, k: K, i: nat, f: nat)
    requires Inv(s) && k in s.cells && i < |s.recent|
    requires f == Reached(s.recent, i)
    ensures WellFormed(Purge(s.cells[k], f))
    ensures forall p :: 0 <= p < |Purge(s.cells[k], f).undo| ==> s.recent[i].commitId <= Purge(s.cells[k], f).undo[p].stamp
  {
    var c := s.cells[k];
    var d := Purge(c, f);
    PurgeShape(c, f);
    forall p | 0 <= p < |d.undo| ensures s.recent[i].commitId <= d.undo[p].stamp {
      assert d.undo[p] == c.undo[p] && Listed(s.active, s.recent, c.undo[p].stamp);
    }
  }

  /** Between the last cleaned commit id and the floor there is no stamp. */
  lemma CleanedUpTo<K, T>(s: State<K, T>, k: K, n: nat, floor: nat, f: nat)
    requires Inv(s) && k in s.cells && floor == LowestStart(s.active) && n == Expired(s.recent, floor)
    requires f == Reached(s.recent, n)
    ensures Purge(s.cells[k], f) == Purge(s.cells[k], floor)
  {
    var c := s.cells[k];
    ExpiredSplits(s.recent, floor);
    LowestStartIsMin(s.active);
    forall p | 0 <= p < |c.undo| ensures c.undo[p].stamp < f <==> c.undo[p].stamp < floor {
      assert Listed(s.active, s.recent, c.undo[p].stamp);
    }
    PurgeSame(c, f, floor);
  }

  lemma {:induction false} ExpiredAt(recent: seq<Committed>, floor: nat, n: nat)
    requires n <= |recent| && forall i :: 0 <= i < n ==> recent[i].commitId < floor
    requires n == |recent| || floor <= recent[n].commitId
    ensures Expired(recent, floor) == n
  {
    if n > 0 { ExpiredAt(recent[1..], floor, n - 1); }
  }
}
