/** Part of a history: what a run of the transition system says about some of its keys is what the run of the events that
  concern them says. */
module Projection {
  import opened Versions
  import opened Mvcc

  /** Which keys belong to the part, under which name, and how their contents look there. */
  datatype Part<!K, !T, !L, !U> = Part(key: K -> Option<L>, content: T -> U)

  ghost predicate OneToOne<K(!new), T, L, U>(p: Part<K, T, L, U>) {
    forall k, k' :: p.key(k).Some? && p.key(k) == p.key(k') ==> k == k'
  }

  function ContentIn<K, T, L, U>(p: Part<K, T, L, U>, v: Option<T>): Option<U> {
    match v case None => None case Some(x) => Some(p.content(x))
  }

  function RecIn<K, T, L, U>(p: Part<K, T, L, U>, r: Rec<T>): Rec<U> {
    Rec(r.stamp, ContentIn(p, r.before))
  }

  function UndoIn<K, T, L, U>(p: Part<K, T, L, U>, undo: seq<Rec<T>>): (s: seq<Rec<U>>)
    ensures |s| == |undo| && forall i :: 0 <= i < |s| ==> s[i] == RecIn(p, undo[i])
  {
    seq(|undo|, i requires 0 <= i < |undo| => RecIn(p, undo[i]))
  }

  function CellIn<K, T, L, U>(p: Part<K, T, L, U>, c: Cell<T>): Cell<U> {
    Cell(ContentIn(p, c.cur), UndoIn(p, c.undo))
  }

  function EventIn<K, T, L, U>(p: Part<K, T, L, U>, e: Event<K, T>): (es: seq<Event<L, U>>)
    ensures |es| <= 1
  {
    match e
    case Begin => [Begin]
    case Write(id, k, v) => if p.key(k).None? then [] else [Write(id, p.key(k).value, ContentIn(p, v))]
    case Rewrite(id, k, data, v) =>
      if p.key(k).None? then [] else [Rewrite(id, p.key(k).value, p.content(data), ContentIn(p, v))]
    case Commit(id) => [Commit(id)]
    case Rollback(id) => [Rollback(id)]
    case BeginQuery(id) => [BeginQuery(id)]
    case EndQuery(id) => [EndQuery(id)]
  }

  /** The events that concern the part. */
  function HistoryIn<K, T, L, U>(p: Part<K, T, L, U>, h: seq<Event<K, T>>): seq<Event<L, U>> {
    if h == [] then [] else HistoryIn(p, h[..|h| - 1]) + EventIn(p, h[|h| - 1])
  }

  lemma HistoryPush<K, T, L, U>(p: Part<K, T, L, U>, h: seq<Event<K, T>>, e: Event<K, T>)
    ensures HistoryIn(p, h + [e]) == HistoryIn(p, h) + EventIn(p, e)
  {
    assert (h + [e])[..|h|] == h;
  }

  lemma {:induction false} HistoryJoin<K, T, L, U>(p: Part<K, T, L, U>, h: seq<Event<K, T>>, g: seq<Event<K, T>>)
    ensures HistoryIn(p, h + g) == HistoryIn(p, h) + HistoryIn(p, g)
    decreases |g|
  {
    if g == [] {
      assert h + g == h;
    } else {
      var f, e := g[..|g| - 1], g[|g| - 1];
      assert h + g == h + f + [e] && g == f + [e];
      HistoryJoin(p, h, f);
      HistoryPush(p, h + f, e);
      JoinAssociates(HistoryIn(p, h), HistoryIn(p, f), EventIn(p, e));
    }
  }

  lemma {:induction false} HistoryAll<K, T, L, U>(p: Part<K, T, L, U>, h: seq<Event<K, T>>, g: seq<Event<L, U>>)
    requires |h| == |g| && forall i :: 0 <= i < |h| ==> EventIn(p, h[i]) == [g[i]]
    ensures HistoryIn(p, h) == g
  {
    if h != [] {
      HistoryAll(p, h[..|h| - 1], g[..|g| - 1]);
      assert g == g[..|g| - 1] + [g[|g| - 1]];
    }
  }

  lemma {:induction false} HistoryNone<K, T, L, U>(p: Part<K, T, L, U>, h: seq<Event<K, T>>)
    requires forall i :: 0 <= i < |h| ==> EventIn(p, h[i]) == []
    ensures HistoryIn(p, h) == []
  {
    if h != [] { HistoryNone(p, h[..|h| - 1]); }
  }

  ghost predicate AgreeOn<K, T, L, U>(p: Part<K, T, L, U>, cells: map<K, Cell<T>>, cells': map<L, Cell<U>>, k: K) {
    p.key(k).Some? ==> CellAt(cells', p.key(k).value) == CellIn(p, CellAt(cells, k))
  }

  ghost predicate SameTransactions<K, T, L, U>(s: State<K, T>, t: State<L, U>) {
    && t.clock == s.clock && t.nextId == s.nextId && t.nextQuery == s.nextQuery
    && t.active == s.active && t.recent == s.recent && t.retired == s.retired
  }

  /** The two states have the same transactions, and the same chains for the keys of the part. */
  ghost predicate Agree<K(!new), T, L, U>(p: Part<K, T, L, U>, s: State<K, T>, t: State<L, U>) {
    SameTransactions(s, t) && forall k :: AgreeOn(p, s.cells, t.cells, k)
  }

  // ----- one chain -----

  lemma OverwriteIn<K, T, L, U>(p: Part<K, T, L, U>, c: Cell<T>, id: nat, v: Option<T>)
    ensures CellIn(p, Overwrite(c, id, v)) == Overwrite(CellIn(p, c), id, ContentIn(p, v))
  {
  }

  lemma TouchedIn<K, T, L, U>(p: Part<K, T, L, U>, c: Cell<T>, data: T, id: nat, v: Option<T>)
    ensures CellIn(p, Touched(c, data, id, v)) == Touched(CellIn(p, c), p.content(data), id, ContentIn(p, v))
  {
  }

  lemma RestampIn<K, T, L, U>(p: Part<K, T, L, U>, c: Cell<T>, id: nat, commitId: nat)
    ensures CellIn(p, Restamp(c, id, commitId)) == Restamp(CellIn(p, c), id, commitId)
  {
  }

  lemma {:induction false} RevertIn<K, T, L, U>(p: Part<K, T, L, U>, c: Cell<T>, id: nat)
    ensures CellIn(p, Revert(c, id)) == Revert(CellIn(p, c), id)
    decreases |c.undo|
  {
    if OwnedBy(c, id) {
      RevertIn(p, Pop(c), id);
      assert CellIn(p, Pop(c)) == Pop(CellIn(p, c));
    }
  }

  lemma {:induction false} KeepIn<K, T, L, U>(p: Part<K, T, L, U>, undo: seq<Rec<T>>, floor: nat)
    ensures UndoIn(p, Keep(undo, floor)) == Keep(UndoIn(p, undo), floor)
  {
    if undo != [] {
      KeepIn(p, undo[1..], floor);
      assert UndoIn(p, undo)[1..] == UndoIn(p, undo[1..]);
    }
  }

  lemma PurgeIn<K, T, L, U>(p: Part<K, T, L, U>, c: Cell<T>, floor: nat)
    ensures CellIn(p, Purge(c, floor)) == Purge(CellIn(p, c), floor)
  {
    KeepIn(p, c.undo, floor);
  }

  lemma ConflictsIn<K, T, L, U>(p: Part<K, T, L, U>, c: Cell<T>, id: nat)
    ensures Conflicts(CellIn(p, c), id) <==> Conflicts(c, id)
  {
  }

  // ----- one event -----

  lemma EnabledIn<K(!new), T, L, U>(p: Part<K, T, L, U>, s: State<K, T>, t: State<L, U>, e: Event<K, T>)
    requires Agree(p, s, t) && |EventIn(p, e)| == 1
    ensures Enabled(t, EventIn(p, e)[0]) <==> Enabled(s, e)
  {
    if Writes(e) {
      assert AgreeOn(p, s.cells, t.cells, e.key);
      ConflictsIn(p, CellAt(s.cells, e.key), e.id);
    }
  }

  lemma WriteIn<K(!new), T, L, U>(p: Part<K, T, L, U>, s: State<K, T>, t: State<L, U>, e: Event<K, T>)
    requires OneToOne(p) && Agree(p, s, t) && e.Write? && Enabled(s, e)
    requires |EventIn(p, e)| == 1 ==> Enabled(t, EventIn(p, e)[0])
    ensures Agree(p, Apply(s, e), if EventIn(p, e) == [] then t else Apply(t, EventIn(p, e)[0]))
  {
    var s', t' := Apply(s, e), if EventIn(p, e) == [] then t else Apply(t, EventIn(p, e)[0]);
    forall k ensures AgreeOn(p, s'.cells, t'.cells, k) {
      assert AgreeOn(p, s.cells, t.cells, k);
      OverwriteIn(p, CellAt(s.cells, k), e.id, e.value);
    }
  }

  lemma RewriteIn<K(!new), T, L, U>(p: Part<K, T, L, U>, s: State<K, T>, t: State<L, U>, e: Event<K, T>)
    requires OneToOne(p) && Agree(p, s, t) && e.Rewrite? && Enabled(s, e)
    requires |EventIn(p, e)| == 1 ==> Enabled(t, EventIn(p, e)[0])
    ensures Agree(p, Apply(s, e), if EventIn(p, e) == [] then t else Apply(t, EventIn(p, e)[0]))
  {
    var s', t' := Apply(s, e), if EventIn(p, e) == [] then t else Apply(t, EventIn(p, e)[0]);
    forall k ensures AgreeOn(p, s'.cells, t'.cells, k) {
      assert AgreeOn(p, s.cells, t.cells, k);
      TouchedIn(p, CellAt(s.cells, k), e.data, e.id, e.value);
    }
  }

  lemma CommitIn<K(!new), T, L, U>(p: Part<K, T, L, U>, s: State<K, T>, t: State<L, U>, id: nat)
    requires Agree(p, s, t) && IsActive(s, id)
    ensures Agree(p, CommitStep(s, id), CommitStep(t, id))
  {
    forall k ensures AgreeOn(p, CommitStep(s, id).cells, CommitStep(t, id).cells, k) {
      assert AgreeOn(p, s.cells, t.cells, k);
      var c, floor := CellAt(s.cells, k), LowestStart(Without(s.active, IndexOf(s.active, id)));
      RestampIn(p, c, id, s.clock);
      PurgeIn(p, Restamp(c, id, s.clock), floor);
    }
  }

  lemma RollbackIn<K(!new), T, L, U>(p: Part<K, T, L, U>, s: State<K, T>, t: State<L, U>, id: nat)
    requires Agree(p, s, t) && IsActive(s, id)
    ensures Agree(p, RollbackStep(s, id), RollbackStep(t, id))
  {
    forall k ensures AgreeOn(p, RollbackStep(s, id).cells, RollbackStep(t, id).cells, k) {
      assert AgreeOn(p, s.cells, t.cells, k);
      var c, floor := CellAt(s.cells, k), LowestStart(Without(s.active, IndexOf(s.active, id)));
      RevertIn(p, c, id);
      PurgeIn(p, Revert(c, id), floor);
    }
  }

  lemma StepIn<K(!new), T, L, U>(p: Part<K, T, L, U>, s: State<K, T>, t: State<L, U>, e: Event<K, T>)
    requires OneToOne(p) && Agree(p, s, t)
    ensures Agree(p, Apply(s, e), if EventIn(p, e) == [] then t else Apply(t, EventIn(p, e)[0]))
  {
    if |EventIn(p, e)| == 1 { EnabledIn(p, s, t, e); }
    if Enabled(s, e) {
      match e
      case Begin => assert forall k :: AgreeOn(p, s.cells, t.cells, k);
      case Write(_, _, _) => WriteIn(p, s, t, e);
      case Rewrite(_, _, _, _) => RewriteIn(p, s, t, e);
      case Commit(id) => CommitIn(p, s, t, id);
      case Rollback(id) => RollbackIn(p, s, t, id);
      case BeginQuery(_) => assert forall k :: AgreeOn(p, s.cells, t.cells, k);
      case EndQuery(_) => assert forall k :: AgreeOn(p, s.cells, t.cells, k);
    }
  }

  // ----- histories -----

  /** After any history the part is where its own events alone have led. */
  lemma {:induction false} RunIn<K(!new), T, L, U>(p: Part<K, T, L, U>, h: seq<Event<K, T>>)
    requires OneToOne(p)
    ensures Agree(p, Run(h), Run(HistoryIn(p, h)))
  {
    if h == [] {
      assert forall k :: AgreeOn(p, map[], map[], k);
    } else {
      var g, e := h[..|h| - 1], h[|h| - 1];
      RunIn(p, g);
      StepIn(p, Run(g), Run(HistoryIn(p, g)), e);
      var own := HistoryIn(p, g);
      if EventIn(p, e) == [] {
        assert HistoryIn(p, h) == own;
      } else {
        assert HistoryIn(p, h)[..|own|] == own && HistoryIn(p, h)[|own|] == EventIn(p, e)[0];
      }
    }
  }

  lemma {:induction false} VisibleIn<K, T, L, U>(p: Part<K, T, L, U>, c: Cell<T>, r: Reader)
    ensures Visible(CellIn(p, c), r) == ContentIn(p, Visible(c, r))
    decreases |c.undo|
  {
    if c.undo != [] && !Sees(r, c.undo[0].stamp) {
      VisibleIn(p, Pop(c), r);
      assert CellIn(p, Pop(c)) == Pop(CellIn(p, c));
    }
  }
}
