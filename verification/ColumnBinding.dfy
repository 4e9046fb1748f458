/** From table columns to positions in the rows that an operator sees. */
module ColumnBinding {
  import opened Versions

  /** A reference to a column; the index is not known before it is resolved. */
  datatype ColumnRef = ColumnRef(table: nat, column: nat, index: Option<nat>)

  datatype Plan =
    | Get(table: nat, columns: nat)
    | Filter(refs: seq<ColumnRef>, child: Plan)
    | CrossProduct(left: Plan, right: Plan)
    | Join(left: Plan, right: Plan, leftRefs: seq<ColumnRef>, rightRefs: seq<ColumnRef>)

  datatype BoundTable = BoundTable(table: nat, columnCount: nat, columnOffset: nat)

  /** The tables of a plan and their columns, from left to right. */
  function Gets(p: Plan): seq<(nat, nat)> {
    match p
    case Get(table, columns) => [(table, columns)]
    case Filter(_, child) => Gets(child)
    case CrossProduct(l, r) => Gets(l) + Gets(r)
    case Join(l, r, _, _) => Gets(l) + Gets(r)
  }

  // ----- rows -----

  type Value = int

  /** A row of each table. */
  type Base = map<nat, seq<Value>>

  ghost predicate Fits(gets: seq<(nat, nat)>, base: Base) {
    forall i :: 0 <= i < |gets| ==> gets[i].0 in base && |base[gets[i].0]| == gets[i].1
  }

  /** The row that an operator hands on: the rows of its tables, one after the other. */
  function RowOf(p: Plan, base: Base): seq<Value>
    requires Fits(Gets(p), base)
  {
    match p
    case Get(table, columns) =>
      assert Gets(p)[0].0 == table;
      base[table]
    case Filter(_, child) => RowOf(child, base)
    case CrossProduct(l, r) => FitsBoth(Gets(l), Gets(r), base); RowOf(l, base) + RowOf(r, base)
    case Join(l, r, _, _) => FitsBoth(Gets(l), Gets(r), base); RowOf(l, base) + RowOf(r, base)
  }

  lemma FitsBoth(a: seq<(nat, nat)>, b: seq<(nat, nat)>, base: Base)
    requires Fits(a + b, base)
    ensures Fits(a, base) && Fits(b, base)
  {
    assert forall i :: 0 <= i < |a| ==> (a + b)[i] == a[i];
    assert forall i :: 0 <= i < |b| ==> (a + b)[|a| + i] == b[i];
  }

  function Width(gets: seq<(nat, nat)>): nat {
    if gets == [] then 0 else Width(gets[..|gets| - 1]) + gets[|gets| - 1].1
  }

  lemma {:induction false} WidthJoin(a: seq<(nat, nat)>, b: seq<(nat, nat)>)
    ensures Width(a + b) == Width(a) + Width(b)
  {
    if b == [] {
      assert a + b == a;
    } else {
      WidthJoin(a, b[..|b| - 1]);
      assert (a + b)[..|a + b| - 1] == a + b[..|b| - 1];
    }
  }

  /** The columns of the i-th table start behind those of the tables before it. */
  lemma {:induction false} RowHolds(p: Plan, base: Base, i: nat, column: nat)
    requires Fits(Gets(p), base) && i < |Gets(p)| && column < Gets(p)[i].1
    ensures |RowOf(p, base)| == Width(Gets(p))
    ensures Width(Gets(p)[..i]) + column < |RowOf(p, base)| && RowOf(p, base)[Width(Gets(p)[..i]) + column] == base[Gets(p)[i].0][column]
    decreases p, 1
  {
    RowWidth(p, base);
    match p
    case Get(table, columns) =>
    case Filter(_, child) => RowHolds(child, base, i, column);
    case CrossProduct(l, r) => BothHold(p, l, r, base, i, column);
    case Join(l, r, _, _) => BothHold(p, l, r, base, i, column);
  }

  lemma {:induction false} BothHold(p: Plan, l: Plan, r: Plan, base: Base, i: nat, column: nat)
    requires (p.CrossProduct? || p.Join?) && p.left == l && p.right == r
    requires Fits(Gets(l) + Gets(r), base) && i < |Gets(l) + Gets(r)| && column < (Gets(l) + Gets(r))[i].1
    ensures Fits(Gets(l), base) && Fits(Gets(r), base)
    ensures var gets, row := Gets(l) + Gets(r), RowOf(l, base) + RowOf(r, base);
      Width(gets[..i]) + column < |row| && row[Width(gets[..i]) + column] == base[gets[i].0][column]
    decreases p, 0
  {
    FitsBoth(Gets(l), Gets(r), base);
    RowWidth(l, base);
    var gets := Gets(l) + Gets(r);
    if i < |Gets(l)| {
      assert gets[..i] == Gets(l)[..i];
      RowHolds(l, base, i, column);
    } else {
      var j := i - |Gets(l)|;
      assert gets[..i] == Gets(l) + Gets(r)[..j];
      WidthJoin(Gets(l), Gets(r)[..j]);
      RowHolds(r, base, j, column);
    }
  }

  lemma {:induction false} RowWidth(p: Plan, base: Base)
    requires Fits(Gets(p), base)
    ensures |RowOf(p, base)| == Width(Gets(p))
  {
    match p
    case Get(table, columns) => assert Gets(p)[..0] == [] && Gets(p)[0] == (table, columns);
    case Filter(_, child) => RowWidth(child, base);
    case CrossProduct(l, r) =>
      FitsBoth(Gets(l), Gets(r), base);
      RowWidth(l, base);
      RowWidth(r, base);
      WidthJoin(Gets(l), Gets(r));
    case Join(l, r, _, _) =>
      FitsBoth(Gets(l), Gets(r), base);
      RowWidth(l, base);
      RowWidth(r, base);
      WidthJoin(Gets(l), Gets(r));
  }

  // ----- resolving -----

  /** Two tables side by side: the columns of the second one stand behind those of the first. */
  lemma SecondBehindFirst(t: nat, n: nat, u: nat, m: nat, base: Base)
    requires t in base && |base[t]| == n && u in base && |base[u]| == m
    ensures Gets(CrossProduct(Get(t, n), Get(u, m))) == [(t, n), (u, m)] == Gets(Join(Get(t, n), Get(u, m), [], []))
    ensures RowOf(CrossProduct(Get(t, n), Get(u, m)), base) == base[t] + base[u] == RowOf(Join(Get(t, n), Get(u, m), [], []), base)
    ensures Width([(t, n), (u, m)][..0]) == 0 && Width([(t, n), (u, m)][..1]) == n
  {
    assert [(t, n)] + [(u, m)] == [(t, n), (u, m)];
    assert [(t, n), (u, m)][..1] == [(t, n)] && [(t, n)][..0] == [];
    assert Fits([(t, n)], base) && Fits([(u, m)], base) by {
      assert [(t, n), (u, m)][0] == (t, n) && [(t, n), (u, m)][1] == (u, m);
    }
  }

  /** The position of a table in a list of tables, or its length. */
  function Find(gets: seq<(nat, nat)>, table: nat): (i: nat)
    ensures i <= |gets| && (i < |gets| ==> gets[i].0 == table) && forall j :: 0 <= j < i ==> gets[j].0 != table
  {
    if gets == [] || gets[0].0 == table then 0 else 1 + Find(gets[1..], table)
  }

  /** The reference names a column of one of the tables. */
  ghost predicate Bound(gets: seq<(nat, nat)>, r: ColumnRef) {
    r.index.None? && Find(gets, r.table) < |gets| && r.column < gets[Find(gets, r.table)].1
  }

  ghost predicate AllBound(gets: seq<(nat, nat)>, refs: seq<ColumnRef>) {
    forall i :: 0 <= i < |refs| ==> Bound(gets, refs[i])
  }

  /** Every reference of a plan names a column of a table below it, on its own side if it belongs to a join condition. */
  ghost predicate Resolvable(p: Plan) {
    match p
    case Get(_, _) => true
    case Filter(refs, child) => Resolvable(child) && AllBound(Gets(child), refs)
    case CrossProduct(l, r) => Resolvable(l) && Resolvable(r)
    case Join(l, r, lrefs, rrefs) => Resolvable(l) && Resolvable(r) && AllBound(Gets(l), lrefs) && AllBound(Gets(r), rrefs)
  }

  /** The index picks the value of the column out of the row that the reference is evaluated on. */
  ghost predicate Picks(r: ColumnRef, row: seq<Value>, base: Base) {
    && r.index.Some? && r.index.value < |row| && r.table in base && r.column < |base[r.table]|
    && row[r.index.value] == base[r.table][r.column]
  }

  ghost predicate AllPick(refs: seq<ColumnRef>, row: seq<Value>, base: Base) {
    forall i :: 0 <= i < |refs| ==> Picks(refs[i], row, base)
  }

  /** Every reference of a plan picks the right value: below a filter out of its input, in a join out of its side's input. */
  ghost predicate Correct(p: Plan, base: Base)
    requires Fits(Gets(p), base)
  {
    match p
    case Get(_, _) => true
    case Filter(refs, child) => Correct(child, base) && AllPick(refs, RowOf(child, base), base)
    case CrossProduct(l, r) => FitsBoth(Gets(l), Gets(r), base); Correct(l, base) && Correct(r, base)
    case Join(l, r, lrefs, rrefs) =>
      FitsBoth(Gets(l), Gets(r), base);
      Correct(l, base) && Correct(r, base) && AllPick(lrefs, RowOf(l, base), base) && AllPick(rrefs, RowOf(r, base), base)
  }

  /** The plan but for the indexes. */
  function Unresolved(p: Plan): Plan {
    match p
    case Get(_, _) => p
    case Filter(refs, child) => Filter(Cleared(refs), Unresolved(child))
    case CrossProduct(l, r) => CrossProduct(Unresolved(l), Unresolved(r))
    case Join(l, r, lrefs, rrefs) => Join(Unresolved(l), Unresolved(r), Cleared(lrefs), Cleared(rrefs))
  }

  function Cleared(refs: seq<ColumnRef>): (c: seq<ColumnRef>)
    ensures |c| == |refs| && forall i :: 0 <= i < |c| ==> c[i] == refs[i].(index := None)
  {
    seq(|refs|, i requires 0 <= i < |refs| => refs[i].(index := None))
  }

  lemma {:induction false} SameTables(p: Plan, q: Plan)
    requires Unresolved(p) == Unresolved(q)
    ensures Gets(p) == Gets(q)
    ensures forall base :: Fits(Gets(p), base) ==> RowOf(p, base) == RowOf(q, base)
  {
    match p
    case Get(_, _) =>
    case Filter(_, child) => SameTables(child, q.child);
    case CrossProduct(l, r) => SameTables(l, q.left); SameTables(r, q.right);
      forall base | Fits(Gets(p), base) ensures RowOf(p, base) == RowOf(q, base) { FitsBoth(Gets(l), Gets(r), base); }
    case Join(l, r, _, _) => SameTables(l, q.left); SameTables(r, q.right);
      forall base | Fits(Gets(p), base) ensures RowOf(p, base) == RowOf(q, base) { FitsBoth(Gets(l), Gets(r), base); }
  }

  /** What the resolver knows after visiting a plan: its tables with their offsets. */
  ghost predicate Layout(bound: seq<BoundTable>, gets: seq<(nat, nat)>) {
    && |bound| == |gets|
    && forall i :: 0 <= i < |gets| ==>
         bound[i].table == gets[i].0 && bound[i].columnCount == gets[i].1 && bound[i].columnOffset == Width(gets[..i])
  }

  lemma LayoutEnd(bound: seq<BoundTable>, gets: seq<(nat, nat)>)
    requires Layout(bound, gets) && gets != []
    ensures bound[|bound| - 1].columnOffset + bound[|bound| - 1].columnCount == Width(gets)
  {
    assert gets[..|gets| - 1] + [gets[|gets| - 1]] == gets;
  }

  lemma LayoutPush(bound: seq<BoundTable>, gets: seq<(nat, nat)>, b: BoundTable)
    requires Layout(bound, gets) && b.columnOffset == Width(gets)
    ensures Layout(bound + [b], gets + [(b.table, b.columnCount)])
  {
    var more := gets + [(b.table, b.columnCount)];
    forall i | 0 <= i < |more| ensures (bound + [b])[i].columnOffset == Width(more[..i]) {
      assert more[..i] == gets[..i];
    }
  }

  lemma ResolvedPicks(p: Plan, r: ColumnRef, index: nat, base: Base)
    requires Fits(Gets(p), base) && Bound(Gets(p), r)
    requires index == Width(Gets(p)[..Find(Gets(p), r.table)]) + r.column
    ensures Picks(r.(index := Some(index)), RowOf(p, base), base)
  {
    RowHolds(p, base, Find(Gets(p), r.table), r.column);
  }

  /** One more table of the right side stands behind those of the left one. */
  lemma NextTable(bound: seq<BoundTable>, right: seq<BoundTable>, l: seq<(nat, nat)>, r: seq<(nat, nat)>, i: nat, table: BoundTable)
    requires Layout(right, r) && i < |right| && Layout(bound, l + r[..i]) && table == right[i].(columnOffset := right[i].columnOffset + Width(l))
    ensures Layout(bound + [table], l + r[..i + 1])
  {
    WidthJoin(l, r[..i]);
    assert r[i] == (table.table, table.columnCount);
    PushedBehind(l, r, i);
    LayoutPush(bound, l + r[..i], table);
  }

  lemma PushedBehind(l: seq<(nat, nat)>, r: seq<(nat, nat)>, i: nat)
    requires i < |r|
    ensures l + r[..i + 1] == l + r[..i] + [r[i]]
  {
    assert r[..i + 1] == r[..i] + [r[i]];
  }

  class ColumnBindingResolver {
    var boundTables: seq<BoundTable>

    constructor ()
      ensures boundTables == []
    {
      boundTables := [];
    }

    /** Puts the tables of the right side behind those of the left side. */
    method AppendTables(right: seq<BoundTable>, ghost l: seq<(nat, nat)>, ghost r: seq<(nat, nat)>)
      requires Layout(boundTables, l) && Layout(right, r)
      modifies this
      ensures Layout(boundTables, l + r)
    {
      var offset := if |boundTables| == 0 then 0 else boundTables[|boundTables| - 1].columnOffset + boundTables[|boundTables| - 1].columnCount;
      if l != [] { LayoutEnd(boundTables, l); }
      assert l + r[..0] == l;
      var i := 0;
      while i < |right|
        invariant 0 <= i <= |right| && Layout(boundTables, l + r[..i])
      {
        var table := right[i].(columnOffset := right[i].columnOffset + offset);
        NextTable(boundTables, right, l, r, i, table);
        boundTables := boundTables + [table];
        i := i + 1;
      }
      assert r[..i] == r;
    }

    /** Resolves one reference by looking for its table. */
    method Resolve(r: ColumnRef, ghost gets: seq<(nat, nat)>) returns (resolved: ColumnRef)
      requires Layout(boundTables, gets) && Bound(gets, r)
      ensures resolved == r.(index := Some(Width(gets[..Find(gets, r.table)]) + r.column))
    {
      resolved := r;
      if r.index.Some? {
        return;
      }
      var i := 0;
      while boundTables[i].table != r.table
        invariant 0 <= i <= Find(gets, r.table)
        decreases |gets| - i
      {
        i := i + 1;
      }
      resolved := r.(index := Some(boundTables[i].columnOffset + r.column));
    }

    method ResolveAll(refs: seq<ColumnRef>, ghost p: Plan) returns (resolved: seq<ColumnRef>)
      requires Layout(boundTables, Gets(p)) && AllBound(Gets(p), refs)
      ensures Cleared(resolved) == Cleared(refs)
      ensures forall base :: Fits(Gets(p), base) ==> AllPick(resolved, RowOf(p, base), base)
    {
      resolved := [];
      var i := 0;
      while i < |refs|
        invariant 0 <= i <= |refs| && |resolved| == i
        invariant forall k :: 0 <= k < i ==> resolved[k].(index := None) == refs[k].(index := None)
        invariant forall base :: Fits(Gets(p), base) ==> AllPick(resolved, RowOf(p, base), base)
      {
        var r := Resolve(refs[i], Gets(p));
        forall base | Fits(Gets(p), base) ensures Picks(r, RowOf(p, base), base) {
          ResolvedPicks(p, refs[i], r.index.value, base);
        }
        resolved := resolved + [r];
        i := i + 1;
      }
    }

    /** Resolves the references of a plan. */
    method Visit(p: Plan) returns (resolved: Plan)
      requires boundTables == [] && Resolvable(p)
      modifies this
      ensures Layout(boundTables, Gets(p)) && Unresolved(resolved) == Unresolved(p)
      ensures Gets(resolved) == Gets(p) && forall base :: Fits(Gets(p), base) ==> Correct(resolved, base)
      decreases p
    {
      match p {
        case Get(table, columns) =>
          boundTables := boundTables + [BoundTable(table, columns, 0)];
          resolved := p;
        case Filter(refs, child) =>
          var newChild := Visit(child);
          var newRefs := ResolveAll(refs, child);
          resolved := Filter(newRefs, newChild);
          SameTables(child, newChild);
        case CrossProduct(l, r) =>
          var newLeft := Visit(l);
          var leftTables := boundTables;
          boundTables := [];
          var newRight := Visit(r);
          var rightTables := boundTables;
          boundTables := leftTables;
          AppendTables(rightTables, Gets(l), Gets(r));
          resolved := CrossProduct(newLeft, newRight);
          forall base | Fits(Gets(p), base) ensures Correct(resolved, base) {
            FitsBoth(Gets(l), Gets(r), base);
          }
        case Join(l, r, leftRefs, rightRefs) =>
          var newLeft := Visit(l);
          var newLeftRefs := ResolveAll(leftRefs, l);
          var leftTables := boundTables;
          boundTables := [];
          var newRight := Visit(r);
          var newRightRefs := ResolveAll(rightRefs, r);
          var rightTables := boundTables;
          boundTables := leftTables;
          AppendTables(rightTables, Gets(l), Gets(r));
          resolved := Join(newLeft, newRight, newLeftRefs, newRightRefs);
          SameTables(l, newLeft);
          SameTables(r, newRight);
          forall base | Fits(Gets(p), base) ensures Correct(resolved, base) {
            FitsBoth(Gets(l), Gets(r), base);
          }
      }
    }
  }
}
