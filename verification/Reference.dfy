/** The reference machine by itself: it decides which events to accept, without a look at lists of transactions or chains.

  It counts what was begun, committed and asked, and knows the writes of every running transaction.  Over clean histories the
  engine accepts exactly what this machine accepts, and comes to the same contents and views. */
module Reference {
  import opened Versions
  import opened Mvcc
  import opened Snapshot

  /** `ticks` counts the start times and commit ids given out, `asking` holds who runs a query. */
  datatype Reference<K, T> = Reference(ticks: nat, begun: nat, asked: nat, asking: set<nat>, spec: Spec<K, T>)

  /** Somebody else who is running has written the key. */
  ghost predicate WrittenByOther<K, T>(a: Spec<K, T>, id: nat, k: K) {
    exists other :: other in a.views && other != id && k in a.views[other].mine
  }

  /** The newest content of a key that nobody else is writing. */
  function Newest<K, T>(a: Spec<K, T>, id: nat, k: K): Option<T> {
    if id in a.views && k in a.views[id].mine then a.views[id].mine[k] else Lookup(a.db, k)
  }

  ghost predicate Accepts<K, T>(r: Reference<K, T>, e: Event<K, T>) {
    match e
    case Begin => r.ticks < 4294967296
    case Write(id, k, _) => id in r.spec.views && !WrittenByOther(r.spec, id, k)
    case Rewrite(id, k, _, _) => id in r.spec.views && !WrittenByOther(r.spec, id, k) && Newest(r.spec, id, k) == None
    case Commit(id) => id in r.spec.views && r.ticks < 4294967296
    case Rollback(id) => id in r.spec.views
    case BeginQuery(id) => id in r.spec.views && id !in r.asking && r.asked < 18446744073709551614
    case EndQuery(id) => id in r.spec.views
  }

  ghost function Step<K, T>(r: Reference<K, T>, e: Event<K, T>): Reference<K, T> {
    if !Accepts(r, e) then r else
    var spec := SpecApply(r.spec, e, true, 4294967296 + r.begun);
    match e
    case Begin => Reference(r.ticks + 1, r.begun + 1, r.asked, r.asking, spec)
    case Write(_, _, _) => r.(spec := spec)
    case Rewrite(_, _, _, _) => r.(spec := spec)
    case Commit(id) => Reference(r.ticks + 1, r.begun, r.asked, r.asking - {id}, spec)
    case Rollback(id) => r.(asking := r.asking - {id}, spec := spec)
    case BeginQuery(id) => r.(asked := r.asked + 1, asking := r.asking + {id})
    case EndQuery(id) => r.(asking := r.asking - {id})
  }

  ghost function ReferenceRun<K, T>(es: seq<Event<K, T>>): Reference<K, T> {
    if es == [] then Reference(0, 0, 0, {}, SpecInit()) else Step(ReferenceRun(es[..|es| - 1]), es[|es| - 1])
  }

  // ----- the engine keeps the same counts -----

  ghost predicate Tallies<K, T>(s: State<K, T>, r: Reference<K, T>) {
    && s.clock == r.ticks && s.nextId == 4294967296 + r.begun && s.nextQuery == 1 + r.asked
    && (forall id :: id in r.spec.views <==> IsActive(s, id))
    && (forall i :: 0 <= i < |s.active| ==> (s.active[i].id in r.asking <==> s.active[i].query != MAXIMUM_QUERY_ID))
    && (forall id :: id in r.asking ==> id in r.spec.views)
  }

  lemma ActiveIff<K, T>(s: State<K, T>, id: nat)
    ensures IsActive(s, id) <==> exists i :: 0 <= i < |s.active| && s.active[i].id == id
  {
    if IsActive(s, id) { assert s.active[IndexOf(s.active, id)].id == id; }
  }

  /** A key that a transaction may write is one that no other running transaction has written. */
  lemma WritableExactly<K, T>(s: State<K, T>, a: Spec<K, T>, id: nat, k: K)
    requires Inv(s) && RefinesAt(s, a, k) && IsActive(s, id) && forall other :: other in a.views ==> IsActive(s, other)
    ensures Conflicts(CellAt(s.cells, k), id) <==> WrittenByOther(a, id, k)
  {
    var c := CellAt(s.cells, k);
    InvCellAt(s, k);
    if Conflicts(c, id) {
      assert Listed(s.active, s.recent, c.undo[0].stamp);
      var i :| 0 <= i < |s.active| && s.active[i].id == c.undo[0].stamp;
      assert s.active[i].id in a.views && k in a.views[s.active[i].id].mine;
    }
    if WrittenByOther(a, id, k) {
      var other :| other in a.views && other != id && k in a.views[other].mine;
      assert s.active[IndexOf(s.active, other)].id == other;
    }
  }

  lemma NewestIs<K, T>(s: State<K, T>, a: Spec<K, T>, id: nat, k: K)
    requires Inv(s) && RefinesAt(s, a, k) && IsActive(s, id) && !Conflicts(CellAt(s.cells, k), id)
    ensures CellAt(s.cells, k).cur == Newest(a, id, k)
  {
    var c, i := CellAt(s.cells, k), IndexOf(s.active, id);
    InvCellAt(s, k);
    assert s.active[i].id == id && id in a.views;
  }

  lemma EnabledIff<K, T>(s: State<K, T>, r: Reference<K, T>, e: Event<K, T>)
    requires Inv(s) && Tallies(s, r)
    requires Writes(e) ==> RefinesAt(s, r.spec, e.key)
    ensures Enabled(s, e) <==> Accepts(r, e)
  {
    if (e.Write? || e.Rewrite?) && IsActive(s, e.id) {
      WritableExactly(s, r.spec, e.id, e.key);
      if !Conflicts(CellAt(s.cells, e.key), e.id) { NewestIs(s, r.spec, e.id, e.key); }
    }
    if e.BeginQuery? && IsActive(s, e.id) { assert s.active[IndexOf(s.active, e.id)].id == e.id; }
  }

  lemma BeginTallies<K, T>(s: State<K, T>, r: Reference<K, T>)
    requires Inv(s) && Tallies(s, r) && Enabled(s, Begin) && Accepts(r, Begin)
    ensures Tallies(Apply(s, Begin), Step(r, Begin))
  {
    var t := Apply(s, Begin);
    assert t.active[|s.active|].id == s.nextId;
    assert forall i :: 0 <= i < |s.active| ==> t.active[i] == s.active[i];
    forall id: nat ensures IsActive(t, id) <==> IsActive(s, id) || id == s.nextId {
      ActiveIff(s, id);
      ActiveIff(t, id);
    }
  }

  lemma LeavesActive<K, T>(s: State<K, T>, t: State<K, T>, id: nat, other: nat)
    requires Inv(s) && IsActive(s, id) && t.active == Without(s.active, IndexOf(s.active, id))
    ensures IsActive(t, other) <==> IsActive(s, other) && other != id
  {
    var n := IndexOf(s.active, id);
    WithoutAt(s.active, n);
    assert s.active[n].id == id;
    ActiveIff(s, other);
    ActiveIff(t, other);
    if j :| 0 <= j < |s.active| && s.active[j].id == other && other != id {
      assert t.active[if j < n then j else j - 1] == s.active[j];
    }
  }

  lemma LeavingTallies<K, T>(s: State<K, T>, t: State<K, T>, id: nat)
    requires Inv(s) && IsActive(s, id) && t.active == Without(s.active, IndexOf(s.active, id))
    ensures forall other :: IsActive(t, other) <==> IsActive(s, other) && other != id
    ensures forall i :: 0 <= i < |t.active| ==> exists j :: 0 <= j < |s.active| && s.active[j] == t.active[i] && s.active[j].id != id
  {
    var n := IndexOf(s.active, id);
    WithoutAt(s.active, n);
    assert s.active[n].id == id;
    forall i | 0 <= i < |t.active| ensures exists j :: 0 <= j < |s.active| && s.active[j] == t.active[i] && s.active[j].id != id {
      var j := if i < n then i else i + 1;
      assert s.active[j] == t.active[i];
    }
    forall other: nat { LeavesActive(s, t, id, other); }
  }

  lemma EndTallies<K, T>(s: State<K, T>, r: Reference<K, T>, e: Event<K, T>)
    requires Inv(s) && Tallies(s, r) && (e.Commit? || e.Rollback?) && Enabled(s, e) && Accepts(r, e)
    ensures Tallies(Apply(s, e), Step(r, e))
  {
    LeavingTallies(s, Apply(s, e), e.id);
  }

  lemma SetQueryTallies<K, T>(s: State<K, T>, id: nat, q: nat, n: nat)
    requires Inv(s) && IsActive(s, id)
    ensures var t := SetQuery(s, id, q).(nextQuery := n);
      && (forall other :: IsActive(t, other) <==> IsActive(s, other)) && |t.active| == |s.active|
      && forall i :: 0 <= i < |s.active| ==>
           t.active[i].id == s.active[i].id && t.active[i].query == if s.active[i].id == id then q else s.active[i].query
  {
    var t := SetQuery(s, id, q).(nextQuery := n);
    assert s.active[IndexOf(s.active, id)].id == id;
    assert forall i :: 0 <= i < |s.active| ==> t.active[i].id == s.active[i].id;
    forall other: nat ensures IsActive(t, other) <==> IsActive(s, other) {
      ActiveIff(s, other);
      ActiveIff(t, other);
    }
  }

  lemma QueryTallies<K, T>(s: State<K, T>, r: Reference<K, T>, e: Event<K, T>)
    requires Inv(s) && Tallies(s, r) && (e.BeginQuery? || e.EndQuery?) && Enabled(s, e) && Accepts(r, e)
    ensures Tallies(Apply(s, e), Step(r, e))
  {
    if e.BeginQuery? {
      SetQueryTallies(s, e.id, s.nextQuery, s.nextQuery + 1);
    } else {
      SetQueryTallies(s, e.id, MAXIMUM_QUERY_ID, s.nextQuery);
    }
  }

  lemma StepTallies<K, T>(s: State<K, T>, r: Reference<K, T>, e: Event<K, T>)
    requires Inv(s) && Tallies(s, r) && (Enabled(s, e) <==> Accepts(r, e))
    ensures Tallies(Apply(s, e), Step(r, e))
  {
    if Enabled(s, e) {
      match e
      case Begin => BeginTallies(s, r);
      case Write(_, _, _) =>
      case Rewrite(_, _, _, _) =>
      case Commit(_) => EndTallies(s, r, e);
      case Rollback(_) => EndTallies(s, r, e);
      case BeginQuery(_) => QueryTallies(s, r, e);
      case EndQuery(_) => QueryTallies(s, r, e);
    }
  }

  /** Both machines make the same step. */
  lemma SameStep<K, T>(es: seq<Event<K, T>>)
    requires es != []
    requires var before, e := es[..|es| - 1], es[|es| - 1];
      && ReferenceRun(before).spec == SpecRun(before) && Tallies(Run(before), ReferenceRun(before))
      && (Enabled(Run(before), e) <==> Accepts(ReferenceRun(before), e))
    ensures ReferenceRun(es).spec == SpecRun(es)
    ensures Run(es) == Apply(Run(es[..|es| - 1]), es[|es| - 1])
    ensures ReferenceRun(es) == Step(ReferenceRun(es[..|es| - 1]), es[|es| - 1])
  {
  }

  lemma {:induction false} RunTallies<K(!new), T>(es: seq<Event<K, T>>)
    requires Clean(es)
    ensures ReferenceRun(es).spec == SpecRun(es) && Tallies(Run(es), ReferenceRun(es))
  {
    if es != [] {
      var before, e := es[..|es| - 1], es[|es| - 1];
      RunTallies(before);
      RunEnabledIff(before, e);
      RunKeepsInv(before);
      StepTallies(Run(before), ReferenceRun(before), e);
      SameStep(es);
    }
  }

  lemma RunEnabledIff<K(!new), T>(es: seq<Event<K, T>>, e: Event<K, T>)
    requires Clean(es) && ReferenceRun(es).spec == SpecRun(es) && Tallies(Run(es), ReferenceRun(es))
    ensures Enabled(Run(es), e) <==> Accepts(ReferenceRun(es), e)
  {
    RunRefines(es);
    RunKeepsInv(es);
    if Writes(e) { assert RefinesAt(Run(es), SpecRun(es), e.key); }
    EnabledIff(Run(es), ReferenceRun(es), e);
  }

  /** After a clean history the engine accepts exactly what the reference machine accepts, and both know the same. */
  lemma AcceptsExactly<K(!new), T>(es: seq<Event<K, T>>, e: Event<K, T>)
    requires Clean(es)
    ensures ReferenceRun(es).spec == SpecRun(es)
    ensures Enabled(Run(es), e) <==> Accepts(ReferenceRun(es), e)
  {
    RunTallies(es);
    RunEnabledIff(es, e);
  }

  /** A write is accepted if and only if the transaction is running and nobody else who is running has written the key. */
  lemma WriteAcceptedExactly<K(!new), T>(es: seq<Event<K, T>>, id: nat, k: K, v: Option<T>)
    requires Clean(es)
    ensures Enabled(Run(es), Write(id, k, v)) <==> id in SpecRun(es).views && !WrittenByOther(SpecRun(es), id, k)
  {
    AcceptsExactly(es, Write(id, k, v));
  }

  /** What stands on top of a chain, and whether somebody else put it there. */
  lemma WrittenExactly<K(!new), T>(es: seq<Event<K, T>>, id: nat, k: K)
    requires Clean(es) && IsActive(Run(es), id)
    ensures Conflicts(CellAt(Run(es).cells, k), id) <==> WrittenByOther(SpecRun(es), id, k)
    ensures !Conflicts(CellAt(Run(es).cells, k), id) ==> CellAt(Run(es).cells, k).cur == Newest(SpecRun(es), id, k)
  {
    RunTallies(es);
    RunRefines(es);
    RunKeepsInv(es);
    assert RefinesAt(Run(es), SpecRun(es), k);
    WritableExactly(Run(es), SpecRun(es), id, k);
    if !Conflicts(CellAt(Run(es).cells, k), id) { NewestIs(Run(es), SpecRun(es), id, k); }
  }

  lemma ViewsAreOfActive<K(!new), T>(es: seq<Event<K, T>>, id: nat)
    requires Clean(es)
    ensures id in SpecRun(es).views <==> IsActive(Run(es), id)
  {
    RunTallies(es);
  }

  /** Nobody else who is running has written any of the keys.  The counter is as in Versions.CLOSED. */
  ghost predicate NobodyElseWrote<K, T>(es: seq<Event<K, T>>, id: nat, keys: seq<K>, n: nat := CLOSED)
    decreases |es|, n
  {
    if n > 0 then NobodyElseWrote(es, id, keys, n - 1) else forall i :: 0 <= i < |keys| ==> !WrittenByOther(SpecRun(es), id, keys[i])
  }

  lemma {:induction false} NobodyElseWroteIs<K, T>(es: seq<Event<K, T>>, id: nat, keys: seq<K>, n: nat := CLOSED)
    ensures NobodyElseWrote(es, id, keys, n) <==> forall i :: 0 <= i < |keys| ==> !WrittenByOther(SpecRun(es), id, keys[i])
    decreases n
  {
    if n > 0 { NobodyElseWroteIs(es, id, keys, n - 1); }
  }

  /** No accepted event rewrites a row that somebody else has deleted. */
  ghost predicate Polite<K, T>(es: seq<Event<K, T>>) {
    es == [] ||
      var before, e := ReferenceRun(es[..|es| - 1]), es[|es| - 1];
      Polite(es[..|es| - 1]) && (e.Rewrite? && Accepts(before, e) ==> e.key in before.spec.views[e.id].mine)
  }

  /** Whether a history is clean can be told without the engine, too. */
  lemma {:induction false} CleanIsPolite<K(!new), T>(es: seq<Event<K, T>>)
    ensures Clean(es) <==> Polite(es)
  {
    if es != [] {
      var before, e := es[..|es| - 1], es[|es| - 1];
      CleanIsPolite(before);
      if Clean(before) {
        AcceptsExactly(before, e);
        RunRefines(before);
        if e.Rewrite? && Enabled(Run(before), e) {
          assert RefinesAt(Run(before), SpecRun(before), e.key);
          assert Run(before).active[IndexOf(Run(before).active, e.id)].id == e.id;
        }
      }
    }
  }
}
