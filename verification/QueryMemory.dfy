/** Undo memory is freed only when no running query can still be walking it.

  A query may keep a pointer to the undo data of any transaction that was active or recently
  committed, hence linked into the chains, at some moment since the query began. */
module QueryMemory {
  import opened Versions
  import opened Mvcc

  /** `held[t]` is what the query of transaction t may point to; `freed` is what has been released. */
  datatype Memory = Memory(held: map<nat, set<nat>>, freed: set<nat>)

  function ActiveIds(active: seq<Active>): set<nat> { set i | 0 <= i < |active| :: active[i].id }

  function RecentIds(recent: seq<Committed>): set<nat> { set i | 0 <= i < |recent| :: recent[i].id }

  function RetiredIds(retired: seq<Retired>): set<nat> { set i | 0 <= i < |retired| :: retired[i].id }

  function LinkedIds<K, T>(s: State<K, T>): set<nat> { ActiveIds(s.active) + RecentIds(s.recent) }

  function KnownIds<K, T>(s: State<K, T>): set<nat> { LinkedIds(s) + RetiredIds(s.retired) }

  function Queries<K, T>(held: map<nat, set<nat>>, e: Event<K, T>): map<nat, set<nat>> {
    match e
    case BeginQuery(id) => held[id := {}]
    case EndQuery(id) => held - {id}
    case Commit(id) => held - {id}
    case Rollback(id) => held - {id}
    case _ => held
  }

  /** A query picks up everything linked after the event; what the event made unknown was freed. */
  function Observe<K, T>(m: Memory, s: State<K, T>, e: Event<K, T>): Memory {
    var t := Apply(s, e);
    var running := if Enabled(s, e) then Queries(m.held, e) else m.held;
    Memory(map id | id in running :: running[id] + LinkedIds(t), m.freed + (KnownIds(s) - KnownIds(t)))
  }

  function MemoryRun<K(==), T>(es: seq<Event<K, T>>): Memory {
    if es == [] then Memory(map[], {}) else
    Observe(MemoryRun(es[..|es| - 1]), Run(es[..|es| - 1]), es[|es| - 1])
  }

  ghost predicate DistinctIds<K, T>(s: State<K, T>) {
    && (forall i, j :: 0 <= i < j < |s.active| ==> s.active[i].id != s.active[j].id)
    && (forall i, j :: 0 <= i < j < |s.recent| ==> s.recent[i].id != s.recent[j].id)
    && (forall i, j :: 0 <= i < j < |s.retired| ==> s.retired[i].id != s.retired[j].id)
    && ActiveIds(s.active) !! RecentIds(s.recent)
    && LinkedIds(s) !! RetiredIds(s.retired)
    && (forall id :: id in KnownIds(s) ==> id < s.nextId)
  }

  /** Retired transactions are queued in the order of the query numbers they wait for. */
  ghost predicate Queued(retired: seq<Retired>, nextQuery: nat) {
    && (forall i :: 0 <= i < |retired| ==> retired[i].highest <= nextQuery)
    && (forall i, j :: 0 <= i < j < |retired| ==> retired[i].highest <= retired[j].highest)
  }

  ghost predicate Running<K, T>(s: State<K, T>, held: map<nat, set<nat>>) {
    && s.nextQuery <= MAXIMUM_QUERY_ID
    && held.Keys <= ActiveIds(s.active)
    && forall i :: 0 <= i < |s.active| ==>
         && (s.active[i].query == MAXIMUM_QUERY_ID <==> s.active[i].id !in held)
         && (s.active[i].query == MAXIMUM_QUERY_ID || s.active[i].query < s.nextQuery)
  }

  /** A query that holds retired undo data began before that data was unlinked. */
  ghost predicate HoldersAreOlder(active: seq<Active>, retired: seq<Retired>, held: map<nat, set<nat>>) {
    forall i, j :: 0 <= i < |active| && 0 <= j < |retired| && active[i].id in held && retired[j].id in held[active[i].id] ==>
      active[i].query < retired[j].highest
  }

  ghost predicate Safe(m: Memory) {
    forall id :: id in m.held ==> m.held[id] !! m.freed
  }

  ghost predicate MemoryInv<K, T>(s: State<K, T>, m: Memory) {
    && DistinctIds(s)
    && Queued(s.retired, s.nextQuery)
    && Running(s, m.held)
    && HoldersAreOlder(s.active, s.retired, m.held)
    && Safe(m)
    && m.freed !! KnownIds(s)
    && (forall id :: id in m.freed ==> id < s.nextId)
  }

  lemma {:induction false} FreeableSplits(waiting: seq<Retired>, lowest: nat)
    requires forall i, j :: 0 <= i < j < |waiting| ==> waiting[i].highest <= waiting[j].highest
    ensures forall i :: 0 <= i < |waiting| ==> (waiting[i].highest < lowest <==> i < Freeable(waiting, lowest))
  {
    if waiting != [] {
      var t := waiting[1..];
      assert forall i :: 0 <= i < |t| ==> t[i] == waiting[i + 1];
      FreeableSplits(t, lowest);
      forall i | 0 <= i < |waiting| ensures waiting[i].highest < lowest <==> i < Freeable(waiting, lowest) {
        if i > 0 { assert waiting[i] == t[i - 1]; }
      }
    }
  }

  /** Stopping at the first blocked transaction misses none that could be freed. */
  lemma CollectFreesAllFreeable<K, T>(s: State<K, T>, i: nat)
    requires Queued(s.retired, s.nextQuery) && i < |Collect(s).retired|
    ensures LowestQuery(s.active) <= Collect(s).retired[i].highest
    ensures s.active != []
  {
    var n := Expired(s.recent, LowestStart(s.active));
    var all := s.retired + RetireAll(s.recent[..n], s.nextQuery);
    FreeableSplits(all, LowestQuery(s.active));
  }

  lemma WithoutIds(active: seq<Active>, i: nat)
    requires i < |active|
    requires forall a, b :: 0 <= a < b < |active| ==> active[a].id != active[b].id
    ensures ActiveIds(Without(active, i)) == ActiveIds(active) - {active[i].id}
    ensures forall a, b :: 0 <= a < b < |Without(active, i)| ==> Without(active, i)[a].id != Without(active, i)[b].id
  {
    WithoutAt(active, i);
    var w := Without(active, i);
    forall id | id in ActiveIds(active) && id != active[i].id ensures id in ActiveIds(w) {
      var j :| 0 <= j < |active| && active[j].id == id;
      assert w[if j < i then j else j - 1].id == id;
    }
    forall id | id in ActiveIds(w) ensures id in ActiveIds(active) && id != active[i].id {
      var j :| 0 <= j < |w| && w[j].id == id;
      assert active[if j < i then j else j + 1].id == id;
    }
  }

  lemma RecentPushed(recent: seq<Committed>, c: Committed)
    ensures RecentIds(recent + [c]) == RecentIds(recent) + {c.id}
  {
    assert (recent + [c])[|recent|].id == c.id;
    forall i | 0 <= i < |recent| ensures recent[i].id in RecentIds(recent + [c]) {
      assert (recent + [c])[i].id == recent[i].id;
    }
  }

  lemma RetiredJoined(a: seq<Retired>, b: seq<Retired>)
    ensures RetiredIds(a + b) == RetiredIds(a) + RetiredIds(b)
  {
    forall i | 0 <= i < |a| ensures a[i].id in RetiredIds(a + b) { assert (a + b)[i].id == a[i].id; }
    forall i | 0 <= i < |b| ensures b[i].id in RetiredIds(a + b) { assert (a + b)[|a| + i].id == b[i].id; }
  }

  lemma RecentJoined(a: seq<Committed>, b: seq<Committed>)
    ensures RecentIds(a + b) == RecentIds(a) + RecentIds(b)
  {
    forall i | 0 <= i < |a| ensures a[i].id in RecentIds(a + b) { assert (a + b)[i].id == a[i].id; }
    forall i | 0 <= i < |b| ensures b[i].id in RecentIds(a + b) { assert (a + b)[|a| + i].id == b[i].id; }
  }

  lemma RetireAllIds(gone: seq<Committed>, highest: nat)
    ensures RetiredIds(RetireAll(gone, highest)) == RecentIds(gone)
  {
    var r := RetireAll(gone, highest);
    forall i | 0 <= i < |gone| ensures gone[i].id in RetiredIds(r) { assert r[i].id == gone[i].id; }
  }

  lemma UnlistDistinct<K, T>(s: State<K, T>, i: nat, commitId: nat)
    requires DistinctIds(s) && i < |s.active|
    ensures DistinctIds(Unlist(s, i, commitId))
    ensures KnownIds(Unlist(s, i, commitId)) == KnownIds(s)
  {
    var id := s.active[i].id;
    var t := Unlist(s, i, commitId);
    WithoutIds(s.active, i);
    RecentPushed(s.recent, Committed(id, commitId));
    RetiredJoined(s.retired, [Retired(id, s.nextQuery)]);
    assert RetiredIds([Retired(id, s.nextQuery)]) == {id} by { assert [Retired(id, s.nextQuery)][0].id == id; }
    assert id in ActiveIds(s.active);
    assert forall j :: 0 <= j < |s.recent| ==> s.recent[j].id in RecentIds(s.recent);
    assert forall j :: 0 <= j < |s.retired| ==> s.retired[j].id in RetiredIds(s.retired);
    assert KnownIds(t) == KnownIds(s);
  }

  /** What is left of the queries when a transaction leaves the active list. */
  lemma UnlistRuns<K, T>(s: State<K, T>, m: Memory, i: nat, commitId: nat)
    requires MemoryInv(s, m) && i < |s.active|
    ensures var t, held := Unlist(s, i, commitId), m.held - {s.active[i].id};
      Queued(t.retired, t.nextQuery) && Running(t, held)
  {
    WithoutIds(s.active, i);
    WithoutAt(s.active, i);
  }

  lemma UnlistOlder<K, T>(s: State<K, T>, m: Memory, i: nat, commitId: nat)
    requires MemoryInv(s, m) && i < |s.active|
    ensures var t, held := Unlist(s, i, commitId), m.held - {s.active[i].id};
      HoldersAreOlder(t.active, t.retired, held)
  {
    WithoutAt(s.active, i);
    var t, held := Unlist(s, i, commitId), m.held - {s.active[i].id};
    forall a, j | 0 <= a < |t.active| && 0 <= j < |t.retired| && t.active[a].id in held && t.retired[j].id in held[t.active[a].id]
      ensures t.active[a].query < t.retired[j].highest
    {
      var b := if a < i then a else a + 1;
      assert t.active[a] == s.active[b];
    }
  }

  /** A finished transaction leaves the active list; its query is over. */
  lemma UnlistKeepsMemory<K, T>(s: State<K, T>, m: Memory, i: nat, commitId: nat)
    requires MemoryInv(s, m) && i < |s.active|
    ensures MemoryInv(Unlist(s, i, commitId), m.(held := m.held - {s.active[i].id}))
    ensures KnownIds(Unlist(s, i, commitId)) == KnownIds(s)
  {
    UnlistDistinct(s, i, commitId);
    UnlistRuns(s, m, i, commitId);
    UnlistOlder(s, m, i, commitId);
  }

  function MoveExpired<K, T>(s: State<K, T>, n: nat): State<K, T>
    requires n <= |s.recent|
  {
    s.(recent := s.recent[n..], retired := s.retired + RetireAll(s.recent[..n], s.nextQuery))
  }

  lemma MoveExpiredDistinct<K, T>(s: State<K, T>, n: nat)
    requires DistinctIds(s) && n <= |s.recent|
    ensures DistinctIds(MoveExpired(s, n)) && KnownIds(MoveExpired(s, n)) == KnownIds(s)
  {
    var gone, kept := s.recent[..n], s.recent[n..];
    var moved := RetireAll(gone, s.nextQuery);
    assert s.recent == gone + kept;
    RecentJoined(gone, kept);
    RetiredJoined(s.retired, moved);
    RetireAllIds(gone, s.nextQuery);
    assert RecentIds(gone) !! RecentIds(kept);
    assert forall j :: 0 <= j < |gone| ==> gone[j].id in RecentIds(gone);
    assert forall j :: 0 <= j < |s.retired| ==> s.retired[j].id in RetiredIds(s.retired);
    assert KnownIds(MoveExpired(s, n)) == KnownIds(s);
  }

  lemma MoveExpiredQueues<K, T>(s: State<K, T>, m: Memory, n: nat)
    requires MemoryInv(s, m) && n <= |s.recent|
    ensures var t := MoveExpired(s, n);
      Queued(t.retired, t.nextQuery) && Running(t, m.held) && HoldersAreOlder(t.active, t.retired, m.held)
  {
    RetireAllIds(s.recent[..n], s.nextQuery);
  }

  /** Undo data that is unlinked waits for every query now running. */
  lemma MoveExpiredKeepsMemory<K, T>(s: State<K, T>, m: Memory, n: nat)
    requires MemoryInv(s, m) && n <= |s.recent|
    ensures MemoryInv(MoveExpired(s, n), m)
    ensures KnownIds(MoveExpired(s, n)) == KnownIds(s)
  {
    MoveExpiredDistinct(s, n);
    MoveExpiredQueues(s, m, n);
  }

  /** Freeing the front of the queue takes nothing a running query holds. */
  lemma FreeKeepsMemory<K, T>(s: State<K, T>, m: Memory, n: nat)
    requires MemoryInv(s, m) && n <= |s.retired|
    requires forall i, j :: 0 <= i < |s.active| && 0 <= j < n && s.active[i].query != MAXIMUM_QUERY_ID ==>
      s.retired[j].highest <= s.active[i].query
    ensures var t := s.(retired := s.retired[n..]);
      MemoryInv(t, m.(freed := m.freed + (KnownIds(s) - KnownIds(t))))
  {
    var gone, kept := s.retired[..n], s.retired[n..];
    var t := s.(retired := kept);
    assert s.retired == gone + kept;
    RetiredJoined(gone, kept);
    var freed := KnownIds(s) - KnownIds(t);
    forall id | id in m.held ensures m.held[id] !! freed {
      assert id in ActiveIds(s.active);
      var i :| 0 <= i < |s.active| && s.active[i].id == id;
      forall f | f in freed ensures f !in m.held[id] {
        assert f in RetiredIds(gone);
        var j :| 0 <= j < |gone| && gone[j].id == f;
        assert s.retired[j] == gone[j];
      }
    }
  }

  /** A query may pick up anything that is linked. */
  lemma PickUpKeepsMemory<K, T>(s: State<K, T>, m: Memory)
    requires MemoryInv(s, m)
    ensures MemoryInv(s, m.(held := map id | id in m.held :: m.held[id] + LinkedIds(s)))
  {
    assert forall j :: 0 <= j < |s.retired| ==> s.retired[j].id in RetiredIds(s.retired);
  }

  lemma CollectKeepsMemory<K, T>(s: State<K, T>, m: Memory)
    requires MemoryInv(s, m)
    ensures MemoryInv(Collect(s), m.(freed := m.freed + (KnownIds(s) - KnownIds(Collect(s)))))
  {
    var n := Expired(s.recent, LowestStart(s.active));
    var t := MoveExpired(s, n);
    MoveExpiredKeepsMemory(s, m, n);
    var k := if t.active == [] then |t.retired| else Freeable(t.retired, LowestQuery(t.active));
    FreeableSplits(t.retired, LowestQuery(t.active));
    LowestQueryIsMin(t.active);
    FreeKeepsMemory(t, m, k);
  }

  lemma SameMemory<K, T>(s: State<K, T>, t: State<K, T>, m: Memory)
    requires MemoryInv(s, m) && t.(clock := s.clock, cells := s.cells) == s
    ensures MemoryInv(t, m)
  {
    assert KnownIds(t) == KnownIds(s);
  }

  lemma FinishKeepsMemory<K, T>(s: State<K, T>, t: State<K, T>, m: Memory, e: Event<K, T>, id: nat, commitId: nat)
    requires MemoryInv(s, m) && IsActive(s, id) && Enabled(s, e) && (e == Commit(id) || e == Rollback(id))
    requires t.(clock := s.clock, cells := s.cells) == s
    requires Apply(s, e) == Collect(Unlist(t, IndexOf(s.active, id), commitId))
    ensures MemoryInv(Apply(s, e), Observe(m, s, e))
  {
    var i := IndexOf(s.active, id);
    var u := Unlist(t, i, commitId);
    var m' := m.(held := m.held - {id});
    SameMemory(s, t, m);
    UnlistKeepsMemory(t, m, i, commitId);
    CollectKeepsMemory(u, m');
    PickUpKeepsMemory(Collect(u), m'.(freed := m'.freed + (KnownIds(u) - KnownIds(Collect(u)))));
  }

  lemma BeginKeepsMemory<K, T>(s: State<K, T>, m: Memory)
    requires MemoryInv(s, m) && Enabled(s, Begin)
    ensures MemoryInv(Apply(s, Begin), m)
    ensures KnownIds(s) <= KnownIds(Apply(s, Begin))
  {
    var t := Apply(s, Begin);
    var n := |s.active|;
    forall i | 0 <= i < n ensures s.active[i].id in ActiveIds(t.active) && s.active[i].id in ActiveIds(s.active) {
      assert t.active[i].id == s.active[i].id;
    }
    assert t.active[n].id == s.nextId;
    assert ActiveIds(t.active) == ActiveIds(s.active) + {s.nextId};
    assert DistinctIds(t);
    assert s.nextId !in ActiveIds(s.active);
  }

  lemma SetQueryIds<K, T>(s: State<K, T>, id: nat, q: nat)
    requires IsActive(s, id)
    ensures ActiveIds(SetQuery(s, id, q).active) == ActiveIds(s.active)
  {
    var t := SetQuery(s, id, q);
    assert forall i :: 0 <= i < |s.active| ==> t.active[i].id == s.active[i].id;
    forall i | 0 <= i < |s.active| ensures s.active[i].id in ActiveIds(t.active) { assert t.active[i].id == s.active[i].id; }
    forall i | 0 <= i < |s.active| ensures t.active[i].id in ActiveIds(s.active) { assert t.active[i].id == s.active[i].id; }
  }

  /** Only the query of one transaction is different. */
  lemma SetQueryAt<K, T>(s: State<K, T>, m: Memory, id: nat, q: nat, i: nat)
    requires MemoryInv(s, m) && IsActive(s, id) && i == IndexOf(s.active, id)
    ensures var t := SetQuery(s, id, q);
      && |t.active| == |s.active| && t.active[i] == s.active[i].(query := q) && s.active[i].id == id && id in ActiveIds(s.active)
      && (forall j :: 0 <= j < |s.active| && j != i ==> t.active[j] == s.active[j] && s.active[j].id != id)
      && DistinctIds(t) && KnownIds(t) == KnownIds(s) && LinkedIds(t) == LinkedIds(s)
  {
    var t := SetQuery(s, id, q);
    SetQueryIds(s, id, q);
    assert forall j :: 0 <= j < |s.active| ==> t.active[j].id == s.active[j].id;
  }

  lemma BeginQueryKeepsMemory<K, T>(s: State<K, T>, m: Memory, id: nat)
    requires MemoryInv(s, m) && Enabled(s, BeginQuery(id))
    ensures MemoryInv(Apply(s, BeginQuery(id)), m.(held := m.held[id := {}]))
    ensures KnownIds(Apply(s, BeginQuery(id))) == KnownIds(s)
  {
    SetQueryAt(s, m, id, s.nextQuery, IndexOf(s.active, id));
    QueryRuns(s, m, id);
  }

  lemma QueryRuns<K, T>(s: State<K, T>, m: Memory, id: nat)
    requires MemoryInv(s, m) && Enabled(s, BeginQuery(id))
    ensures Running(Apply(s, BeginQuery(id)), m.held[id := {}])
  {
    SetQueryAt(s, m, id, s.nextQuery, IndexOf(s.active, id));
  }

  lemma EndQueryKeepsMemory<K, T>(s: State<K, T>, m: Memory, id: nat)
    requires MemoryInv(s, m) && Enabled(s, EndQuery(id))
    ensures MemoryInv(Apply(s, EndQuery(id)), m.(held := m.held - {id}))
    ensures KnownIds(Apply(s, EndQuery(id))) == KnownIds(s)
  {
    SetQueryAt(s, m, id, MAXIMUM_QUERY_ID, IndexOf(s.active, id));
  }

  lemma ObserveKeepsMemory<K, T>(s: State<K, T>, m: Memory, e: Event<K, T>)
    requires MemoryInv(s, m)
    ensures MemoryInv(Apply(s, e), Observe(m, s, e))
  {
    var t := Apply(s, e);
    if !Enabled(s, e) {
      PickUpKeepsMemory(s, m);
    } else {
      match e
      case Begin =>
        BeginKeepsMemory(s, m);
        PickUpKeepsMemory(t, m);
        assert KnownIds(s) - KnownIds(t) == {};
      case Write(_, _, _) =>
        SameMemory(s, t, m);
        PickUpKeepsMemory(t, m);
      case Rewrite(_, _, _, _) =>
        SameMemory(s, t, m);
        PickUpKeepsMemory(t, m);
      case Commit(id) =>
        FinishKeepsMemory(s, s.(clock := s.clock + 1, cells := MapRestamp(s.cells, id, s.clock)), m, e, id, s.clock);
      case Rollback(id) =>
        FinishKeepsMemory(s, s.(cells := MapRevert(s.cells, id)), m, e, id, 0);
      case BeginQuery(id) =>
        BeginQueryKeepsMemory(s, m, id);
        PickUpKeepsMemory(t, m.(held := Queries(m.held, e)));
      case EndQuery(id) =>
        EndQueryKeepsMemory(s, m, id);
        PickUpKeepsMemory(t, m.(held := Queries(m.held, e)));
    }
  }

  lemma {:induction false} RunKeepsMemory<K, T>(es: seq<Event<K, T>>)
    ensures MemoryInv(Run(es), MemoryRun(es))
  {
    if es != [] {
      RunKeepsMemory(es[..|es| - 1]);
      ObserveKeepsMemory(Run(es[..|es| - 1]), MemoryRun(es[..|es| - 1]), es[|es| - 1]);
    }
  }

  /** In every run, a running query holds everything that is linked and nothing that has been freed. */
  lemma NoQueryHoldsFreedMemory<K, T>(es: seq<Event<K, T>>, i: nat)
    requires i < |Run(es).active| && Run(es).active[i].query != MAXIMUM_QUERY_ID
    ensures Run(es).active[i].id in MemoryRun(es).held
    ensures LinkedIds(Run(es)) <= MemoryRun(es).held[Run(es).active[i].id]
    ensures MemoryRun(es).held[Run(es).active[i].id] !! MemoryRun(es).freed
  {
    RunKeepsMemory(es);
  }

  /** Nothing that waits could be freed. */
  ghost predicate AllBlocked<K, T>(s: State<K, T>) {
    forall i :: 0 <= i < |s.retired| ==> s.active != [] && LowestQuery(s.active) <= s.retired[i].highest
  }

  lemma UnlistedBlocked<K, T>(s: State<K, T>, i: nat, commitId: nat)
    requires Queued(s.retired, s.nextQuery) && i < |s.active|
    ensures AllBlocked(Collect(Unlist(s, i, commitId)))
  {
    var t := Unlist(s, i, commitId);
    assert Queued(t.retired, t.nextQuery);
    forall j | 0 <= j < |Collect(t).retired| ensures Collect(t).active != [] && LowestQuery(Collect(t).active) <= Collect(t).retired[j].highest {
      CollectFreesAllFreeable(t, j);
    }
  }

  /** After every commit and rollback, whatever is still waiting is blocked by a running query: stopping at the first
      blocked entry of the queue missed nothing. */
  lemma FinishFreesAllFreeable<K, T>(es: seq<Event<K, T>>, e: Event<K, T>)
    requires Enabled(Run(es), e) && (e.Commit? || e.Rollback?)
    ensures AllBlocked(Run(es + [e]))
  {
    RunKeepsMemory(es);
    var s := Run(es);
    assert (es + [e])[..|es|] == es && Run(es + [e]) == Apply(s, e);
    if e.Commit? {
      UnlistedBlocked(s.(clock := s.clock + 1, cells := MapRestamp(s.cells, e.id, s.clock)), IndexOf(s.active, e.id), s.clock);
    } else {
      UnlistedBlocked(s.(cells := MapRevert(s.cells, e.id)), IndexOf(s.active, e.id), 0);
    }
  }

  // ----- who holds what -----

  /** Every running query holds all that is linked. */
  ghost predicate HoldLinked<K, T>(s: State<K, T>, held: map<nat, set<nat>>) {
    forall id :: id in held ==> LinkedIds(s) <= held[id]
  }

  /** A query that began before undo data was unlinked holds it. */
  ghost predicate OlderHold(active: seq<Active>, retired: seq<Retired>, held: map<nat, set<nat>>) {
    forall i, j :: 0 <= i < |active| && 0 <= j < |retired| && active[i].id in held && active[i].query < retired[j].highest ==>
      retired[j].id in held[active[i].id]
  }

  /** What is waiting was waiting before, or was still linked, and whose query runs was at it before. */
  ghost predicate Follows<K, T>(s: State<K, T>, t: State<K, T>, held: map<nat, set<nat>>, held': map<nat, set<nat>>) {
    && (forall j :: 0 <= j < |t.retired| ==> t.retired[j] in s.retired || t.retired[j].id in LinkedIds(s))
    && (forall i :: 0 <= i < |t.active| && t.active[i].id in held' ==>
          t.active[i] in s.active && t.active[i].id in held && held[t.active[i].id] <= held'[t.active[i].id])
  }

  lemma FollowersHold<K, T>(s: State<K, T>, t: State<K, T>, held: map<nat, set<nat>>, held': map<nat, set<nat>>)
    requires HoldLinked(s, held) && OlderHold(s.active, s.retired, held) && Follows(s, t, held, held')
    ensures OlderHold(t.active, t.retired, held')
  {
    forall i, j | 0 <= i < |t.active| && 0 <= j < |t.retired| && t.active[i].id in held' && t.active[i].query < t.retired[j].highest
      ensures t.retired[j].id in held'[t.active[i].id]
    {
      var a :| 0 <= a < |s.active| && s.active[a] == t.active[i];
      if t.retired[j] in s.retired {
        var b :| 0 <= b < |s.retired| && s.retired[b] == t.retired[j];
        assert s.retired[b].id in held[s.active[a].id];
      }
    }
  }

  /** A commit or rollback retires only what was linked. */
  lemma FinishFollows<K, T>(s: State<K, T>, t: State<K, T>, id: nat, commitId: nat, held: map<nat, set<nat>>, held': map<nat, set<nat>>)
    requires DistinctIds(s) && Running(s, held) && IsActive(s, id) && t.(clock := s.clock, cells := s.cells) == s
    requires held'.Keys == held.Keys - {id} && forall other :: other in held' ==> held[other] <= held'[other]
    ensures Follows(s, Collect(Unlist(t, IndexOf(s.active, id), commitId)), held, held')
  {
    var i := IndexOf(s.active, id);
    var u := Unlist(t, i, commitId);
    var v := Collect(u);
    var n := Expired(u.recent, LowestStart(u.active));
    var all := u.retired + RetireAll(u.recent[..n], u.nextQuery);
    WithoutAt(s.active, i);
    assert s.active[i].id == id && id in ActiveIds(s.active);
    forall j | 0 <= j < |u.recent| ensures u.recent[j].id in LinkedIds(s) {
      if j < |s.recent| { assert u.recent[j] == s.recent[j] && s.recent[j].id in RecentIds(s.recent); }
    }
    forall j | 0 <= j < |all| ensures all[j] in s.retired || all[j].id in LinkedIds(s) {
      if j >= |u.retired| { assert all[j].id == u.recent[j - |u.retired|].id; }
    }
    forall j | 0 <= j < |v.retired| ensures v.retired[j] in s.retired || v.retired[j].id in LinkedIds(s) {
      assert v.retired[j] == all[|all| - |v.retired| + j];
    }
    forall j | 0 <= j < |v.active| && v.active[j].id in held' ensures v.active[j] in s.active {
      assert v.active[j] == s.active[if j < i then j else j + 1];
    }
  }

  /** A new query holds none of what is waiting, and it is not older than any of it. */
  lemma NewQueryIsYounger<K, T>(s: State<K, T>, t: State<K, T>, id: nat, held: map<nat, set<nat>>, held': map<nat, set<nat>>)
    requires DistinctIds(s) && Queued(s.retired, s.nextQuery) && OlderHold(s.active, s.retired, held) && IsActive(s, id)
    requires t == SetQuery(s, id, s.nextQuery).(nextQuery := s.nextQuery + 1)
    requires held'.Keys == held.Keys + {id} && forall other :: other in held && other != id ==> held[other] <= held'[other]
    ensures OlderHold(t.active, t.retired, held')
  {
    var i := IndexOf(s.active, id);
    forall a, j | 0 <= a < |t.active| && 0 <= j < |t.retired| && t.active[a].id in held' && t.active[a].query < t.retired[j].highest
      ensures t.retired[j].id in held'[t.active[a].id]
    {
      assert a != i && t.active[a] == s.active[a] && s.active[i].id == id;
    }
  }

  /** Whatever a query holds it keeps as long as it runs. */
  lemma ObserveGrows<K, T>(m: Memory, s: State<K, T>, e: Event<K, T>)
    ensures var running := if Enabled(s, e) then Queries(m.held, e) else m.held;
      && Observe(m, s, e).held.Keys == running.Keys
      && forall id :: id in running ==> running[id] <= Observe(m, s, e).held[id]
  {
  }

  lemma NothingRetires<K, T>(s: State<K, T>, t: State<K, T>, held: map<nat, set<nat>>, held': map<nat, set<nat>>)
    requires HoldLinked(s, held) && OlderHold(s.active, s.retired, held) && t.retired == s.retired
    requires forall i :: 0 <= i < |t.active| && t.active[i].id in held' ==>
      t.active[i] in s.active && t.active[i].id in held && held[t.active[i].id] <= held'[t.active[i].id]
    ensures OlderHold(t.active, t.retired, held')
  {
    FollowersHold(s, t, held, held');
  }

  lemma EndQueryHolds<K, T>(s: State<K, T>, m: Memory, id: nat)
    requires MemoryInv(s, m) && HoldLinked(s, m.held) && OlderHold(s.active, s.retired, m.held) && IsActive(s, id)
    ensures OlderHold(Apply(s, EndQuery(id)).active, s.retired, Observe(m, s, EndQuery(id)).held)
  {
    var t, held' := Apply(s, EndQuery(id)), Observe(m, s, EndQuery(id)).held;
    ObserveGrows(m, s, EndQuery(id));
    SetQueryAt(s, m, id, MAXIMUM_QUERY_ID, IndexOf(s.active, id));
    NothingRetires(s, t, m.held, held');
  }

  lemma BeginHolds<K, T>(s: State<K, T>, m: Memory)
    requires MemoryInv(s, m) && HoldLinked(s, m.held) && OlderHold(s.active, s.retired, m.held) && Enabled(s, Begin)
    ensures OlderHold(Apply(s, Begin).active, s.retired, Observe(m, s, Begin).held)
  {
    ObserveGrows(m, s, Begin);
    assert s.nextId !in m.held by { assert s.nextId !in KnownIds(s); }
    NothingRetires(s, Apply(s, Begin), m.held, Observe(m, s, Begin).held);
  }

  lemma FinishHolds<K, T>(s: State<K, T>, m: Memory, e: Event<K, T>)
    requires MemoryInv(s, m) && HoldLinked(s, m.held) && OlderHold(s.active, s.retired, m.held)
    requires Enabled(s, e) && (e.Commit? || e.Rollback?)
    ensures OlderHold(Apply(s, e).active, Apply(s, e).retired, Observe(m, s, e).held)
  {
    var held' := Observe(m, s, e).held;
    ObserveGrows(m, s, e);
    if e.Commit? {
      FinishFollows(s, s.(clock := s.clock + 1, cells := MapRestamp(s.cells, e.id, s.clock)), e.id, s.clock, m.held, held');
    } else {
      FinishFollows(s, s.(cells := MapRevert(s.cells, e.id)), e.id, 0, m.held, held');
    }
    FollowersHold(s, Apply(s, e), m.held, held');
  }

  lemma StepHolds<K, T>(s: State<K, T>, m: Memory, e: Event<K, T>)
    requires MemoryInv(s, m) && HoldLinked(s, m.held) && OlderHold(s.active, s.retired, m.held)
    ensures OlderHold(Apply(s, e).active, Apply(s, e).retired, Observe(m, s, e).held)
  {
    ObserveGrows(m, s, e);
    if !Enabled(s, e) || Writes(e) {
      NothingRetires(s, Apply(s, e), m.held, Observe(m, s, e).held);
    } else if e.Begin? {
      BeginHolds(s, m);
    } else if e.Commit? || e.Rollback? {
      FinishHolds(s, m, e);
    } else if e.BeginQuery? {
      NewQueryIsYounger(s, Apply(s, e), e.id, m.held, Observe(m, s, e).held);
    } else {
      EndQueryHolds(s, m, e.id);
    }
  }

  lemma {:induction false} RunHolds<K, T>(es: seq<Event<K, T>>)
    ensures HoldLinked(Run(es), MemoryRun(es).held)
    ensures OlderHold(Run(es).active, Run(es).retired, MemoryRun(es).held)
  {
    if es != [] {
      RunHolds(es[..|es| - 1]);
      RunKeepsMemory(es[..|es| - 1]);
      StepHolds(Run(es[..|es| - 1]), MemoryRun(es[..|es| - 1]), es[|es| - 1]);
    }
  }

  /** Over every run, a running query holds the undo data of a waiting transaction exactly when it began before that data
      was unlinked, that is when its number is less than the number that was next in line then. */
  lemma HoldersAreExactlyOlder<K, T>(es: seq<Event<K, T>>, i: nat, j: nat)
    requires i < |Run(es).active| && j < |Run(es).retired| && Run(es).active[i].query != MAXIMUM_QUERY_ID
    ensures var s, held := Run(es), MemoryRun(es).held;
      s.active[i].id in held && (s.retired[j].id in held[s.active[i].id] <==> s.active[i].query < s.retired[j].highest)
  {
    RunKeepsMemory(es);
    RunHolds(es);
  }

  /** Some running query holds the undo data of the waiting transaction. */
  ghost predicate IsHeld<K, T>(s: State<K, T>, m: Memory, j: nat)
    requires j < |s.retired|
  {
    exists i :: 0 <= i < |s.active| && s.active[i].id in m.held && s.retired[j].id in m.held[s.active[i].id]
  }

  lemma {:induction false} LowestQueryIsReached(active: seq<Active>)
    ensures LowestQuery(active) == MAXIMUM_QUERY_ID || exists i :: 0 <= i < |active| && active[i].query == LowestQuery(active)
  {
    if active != [] {
      LowestQueryIsReached(active[1..]);
      if LowestQuery(active) == active[0].query {
        assert active[0].query == LowestQuery(active);
      } else if LowestQuery(active) != MAXIMUM_QUERY_ID {
        var i :| 0 <= i < |active[1..]| && active[1..][i].query == LowestQuery(active[1..]);
        assert active[i + 1].query == LowestQuery(active);
      }
    }
  }

  lemma HeldExactly<K, T>(es: seq<Event<K, T>>, j: nat)
    requires j < |Run(es).retired|
    ensures IsHeld(Run(es), MemoryRun(es), j) <==> LowestQuery(Run(es).active) < Run(es).retired[j].highest
  {
    var s, m := Run(es), MemoryRun(es);
    RunKeepsMemory(es);
    RunHolds(es);
    LowestQueryIsMin(s.active);
    LowestQueryIsReached(s.active);
    if LowestQuery(s.active) < s.retired[j].highest {
      var i :| 0 <= i < |s.active| && s.active[i].query == LowestQuery(s.active);
      assert s.active[i].id in m.held && s.retired[j].id in m.held[s.active[i].id];
    }
  }

  /** After every commit and rollback, what is waiting is held by a running query, or the oldest running query was the next
      to begin when it was unlinked: it is freed late exactly then. */
  lemma LateExactly<K, T>(es: seq<Event<K, T>>, e: Event<K, T>, j: nat)
    requires Enabled(Run(es), e) && (e.Commit? || e.Rollback?) && j < |Run(es + [e]).retired|
    ensures !IsHeld(Run(es + [e]), MemoryRun(es + [e]), j) <==> LowestQuery(Run(es + [e]).active) == Run(es + [e]).retired[j].highest
  {
    FinishFreesAllFreeable(es, e);
    HeldExactly(es + [e], j);
  }

  /** Three transactions start.  One rolls back while another runs a query; that query ends, the next one begins, and the
      third transaction rolls back. */
  function LateHistory<K, T>(): seq<Event<K, T>> {
    var id := TRANSACTION_ID_START;
    [Begin, Begin, Begin, BeginQuery(id + 1), Rollback(id), EndQuery(id + 1), BeginQuery(id + 1), Rollback(id + 2)]
  }

  lemma NextState<K, T>(es: seq<Event<K, T>>, n: nat)
    requires n < |es|
    ensures Run(es[..n + 1]) == Apply(Run(es[..n]), es[n])
  {
    assert es[..n + 1][..n] == es[..n];
  }

  function Three(query: nat): seq<Active> {
    var id, none := TRANSACTION_ID_START, MAXIMUM_QUERY_ID;
    [Active(id, 0, none), Active(id + 1, 1, query), Active(id + 2, 2, none)]
  }

  lemma LateBegins<K, T>()
    ensures Run(LateHistory<K, T>()[..3]) == State(3, TRANSACTION_ID_START + 3, 1, Three(MAXIMUM_QUERY_ID), [], [], map[])
  {
    var h := LateHistory<K, T>();
    NextState(h, 0);
    NextState(h, 1);
    NextState(h, 2);
  }

  lemma LateQueries<K, T>()
    ensures Run(LateHistory<K, T>()[..4]) == State(3, TRANSACTION_ID_START + 3, 2, Three(1), [], [], map[])
  {
    LateBegins<K, T>();
    NextState(LateHistory<K, T>(), 3);
    assert IndexOf(Three(MAXIMUM_QUERY_ID), TRANSACTION_ID_START + 1) == 1;
  }

  /** A rollback that frees nothing, since the oldest query blocks what waits. */
  lemma RollbackWaits<K, T>(s: State<K, T>, i: nat)
    requires i < |s.active| && IndexOf(s.active, s.active[i].id) == i && s.recent == [] && s.cells == map[] && Without(s.active, i) != []
    requires forall j :: 0 <= j < |s.retired| ==> LowestQuery(Without(s.active, i)) <= s.retired[j].highest
    requires LowestQuery(Without(s.active, i)) <= s.nextQuery
    ensures Apply(s, Rollback(s.active[i].id))
         == s.(active := Without(s.active, i), retired := s.retired + [Retired(s.active[i].id, s.nextQuery)])
  {
    var all := s.retired + [Retired(s.active[i].id, s.nextQuery)];
    assert Freeable(all, LowestQuery(Without(s.active, i))) == 0;
    assert RetireAll([], s.nextQuery) == [];
    assert MapRevert(s.cells, s.active[i].id) == map[];
  }

  lemma FirstRollsBack<K, T>(s: State<K, T>)
    requires s == State(3, TRANSACTION_ID_START + 3, 2, Three(1), [], [], map[])
    ensures Apply(s, Rollback(TRANSACTION_ID_START))
         == State(3, TRANSACTION_ID_START + 3, 2, Three(1)[1..], [], [Retired(TRANSACTION_ID_START, 2)], map[])
  {
    assert Without(s.active, 0) == Three(1)[1..] && LowestQuery(Three(1)[1..]) == 1;
    RollbackWaits(s, 0);
  }

  lemma LateWaits<K, T>()
    ensures Run(LateHistory<K, T>()[..5])
         == State(3, TRANSACTION_ID_START + 3, 2, Three(1)[1..], [], [Retired(TRANSACTION_ID_START, 2)], map[])
  {
    LateQueries<K, T>();
    NextState(LateHistory<K, T>(), 4);
    FirstRollsBack(Run(LateHistory<K, T>()[..4]));
  }

  lemma SecondEndsQuery<K, T>(s: State<K, T>)
    requires s.active == Three(1)[1..]
    ensures Apply(s, EndQuery(TRANSACTION_ID_START + 1)) == s.(active := Three(MAXIMUM_QUERY_ID)[1..])
  {
    assert Three(1)[1..][0 := Three(MAXIMUM_QUERY_ID)[1]] == Three(MAXIMUM_QUERY_ID)[1..];
  }

  lemma SecondBeginsQuery<K, T>(s: State<K, T>)
    requires s.active == Three(MAXIMUM_QUERY_ID)[1..] && s.nextQuery == 2
    ensures Apply(s, BeginQuery(TRANSACTION_ID_START + 1)) == s.(active := Three(2)[1..], nextQuery := 3)
  {
    assert Three(MAXIMUM_QUERY_ID)[1..][0 := Three(2)[1]] == Three(2)[1..];
  }

  lemma LateQueriesAgain<K, T>()
    ensures Run(LateHistory<K, T>()[..7])
         == State(3, TRANSACTION_ID_START + 3, 3, Three(2)[1..], [], [Retired(TRANSACTION_ID_START, 2)], map[])
  {
    LateWaits<K, T>();
    NextState(LateHistory<K, T>(), 5);
    SecondEndsQuery(Run(LateHistory<K, T>()[..5]));
    NextState(LateHistory<K, T>(), 6);
    SecondBeginsQuery(Run(LateHistory<K, T>()[..6]));
  }

  /** After this history the first transaction is still waiting, though no running query holds its undo data. */
  lemma FreedLate<K, T>()
    ensures var h := LateHistory<K, T>();
      |Run(h).retired| == 2 && Run(h).retired[0].id == TRANSACTION_ID_START && !IsHeld(Run(h), MemoryRun(h), 0)
  {
    var h := LateHistory<K, T>();
    LateQueriesAgain<K, T>();
    NextState(h, 7);
    var active := Three(2)[1..];
    assert Without(active, 1) == [Three(2)[1]] && LowestQuery([Three(2)[1]]) == 2 && IndexOf(active, active[1].id) == 1;
    RollbackWaits(Run(h[..7]), 1);
    assert h[..8] == h;
    HeldExactly(h, 0);
  }
}
