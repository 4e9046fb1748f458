/** What the pairs of a join are, in numbers. */
module JoinMeaning {
  import opened Versions
  import opened Join

  /** Two tables and a condition that the planner accepts and places. */
  ghost predicate Joinable(e: Expression, leftTables: set<nat>, leftRows: seq<Row>, rightTables: set<nat>, rightRows: seq<Row>) {
    && Grammatical(e) && Placeable(e, leftTables, rightTables) && leftTables !! rightTables
    && WellFormedPlan(Get(leftTables, leftRows)) && WellFormedPlan(Get(rightTables, rightRows))
  }

  /** The pairs that come out of the rewritten plan. */
  ghost function PairsOn(e: Expression, leftTables: set<nat>, leftRows: seq<Row>, rightTables: set<nat>, rightRows: seq<Row>, ops: Meaning): seq<Pair>
    requires Joinable(e, leftTables, leftRows, rightTables, rightRows)
  {
    var s := JoinState(Get(leftTables, leftRows), Get(rightTables, rightRows), []);
    GrammaticalJoin(e, leftTables, leftRows, rightTables, rightRows, ops);
    JoinOutput(SetCondition(s, e).value, ops)
  }

  lemma {:induction false} PairsHave(p: (Row, Row) -> bool, l: Row, rs: seq<Row>, l': Row, r': Row)
    ensures (l', r') in PairsOf(p, l, rs) <==> l' == l && r' in rs && p(l, r')
  {
    if rs != [] { PairsHave(p, l, rs[1..], l', r'); }
  }

  lemma {:induction false} CrossHas(p: (Row, Row) -> bool, ls: seq<Row>, rs: seq<Row>, l: Row, r: Row)
    ensures (l, r) in CrossWhere(p, ls, rs) <==> l in ls && r in rs && p(l, r)
  {
    if ls != [] {
      PairsHave(p, ls[0], rs, l, r);
      CrossHas(p, ls[1..], rs, l, r);
    }
  }

  lemma PairJoins(e: Expression, leftTables: set<nat>, leftRows: seq<Row>, rightTables: set<nat>, rightRows: seq<Row>, ops: Meaning, l: Row, r: Row)
    requires Joinable(e, leftTables, leftRows, rightTables, rightRows)
    ensures (l, r) in PairsOn(e, leftTables, leftRows, rightTables, rightRows, ops)
      <==> l in leftRows && r in rightRows && IsTrue(Eval(e, l + r, ops))
  {
    GrammaticalJoin(e, leftTables, leftRows, rightTables, rightRows, ops);
    CrossHas((l, r) => IsTrue(Eval(e, l + r, ops)), leftRows, rightRows, l, r);
  }

  // ----- comparisons of two columns -----

  /** The columns of the two rows hold numbers. */
  ghost predicate Numbers(l: Row, x: Column, r: Row, y: Column) {
    x in l && y in r && l[x].Some? && r[y].Some?
  }

  lemma ConstantLands(c: Comparison, x: Column, k: int, left: set<nat>, right: set<nat>)
    requires x.table in left
    ensures Placeable(Compare(c, ColumnRef(x), Constant(Some(k))), left, right)
  {
    assert SideOfChildren(left, right, Constant(Some(k)), 0, NONE) == NONE;
  }

  lemma LeftColumn(leftTables: set<nat>, leftRows: seq<Row>, rightTables: set<nat>, rightRows: seq<Row>, l: Row, r: Row, x: Column, ops: Meaning)
    requires leftTables !! rightTables && WellFormedPlan(Get(rightTables, rightRows)) && r in rightRows && x.table in leftTables
    ensures Eval(ColumnRef(x), l + r, ops) == if x in l then l[x] else None
  {
    var j :| 0 <= j < |rightRows| && rightRows[j] == r;
    assert x !in rightRows[j];
  }

  lemma ColumnsOfPair(leftTables: set<nat>, leftRows: seq<Row>, rightTables: set<nat>, rightRows: seq<Row>, l: Row, r: Row, x: Column, y: Column,
                      ops: Meaning)
    requires leftTables !! rightTables && WellFormedPlan(Get(leftTables, leftRows)) && WellFormedPlan(Get(rightTables, rightRows))
    requires l in leftRows && r in rightRows && x.table in leftTables && y.table in rightTables
    ensures Eval(ColumnRef(x), l + r, ops) == if x in l then l[x] else None
    ensures Eval(ColumnRef(y), l + r, ops) == if y in r then r[y] else None
  {
    var i :| 0 <= i < |leftRows| && leftRows[i] == l;
    var j :| 0 <= j < |rightRows| && rightRows[j] == r;
    assert y !in leftRows[i] && x !in rightRows[j];
  }

  /** ON a.x c b.y, for each comparison c: NULL joins with nothing, and numbers join by their size. */
  lemma OnColumns(c: Comparison, x: Column, y: Column, leftTables: set<nat>, leftRows: seq<Row>, rightTables: set<nat>, rightRows: seq<Row>,
                  ops: Meaning, l: Row, r: Row)
    requires leftTables !! rightTables && WellFormedPlan(Get(leftTables, leftRows)) && WellFormedPlan(Get(rightTables, rightRows))
    requires x.table in leftTables && y.table in rightTables && l in leftRows && r in rightRows
    ensures Joinable(Compare(c, ColumnRef(x), ColumnRef(y)), leftTables, leftRows, rightTables, rightRows)
    ensures (l, r) in PairsOn(Compare(c, ColumnRef(x), ColumnRef(y)), leftTables, leftRows, rightTables, rightRows, ops)
      <==> Numbers(l, x, r, y) &&
           match c
             case Equal => l[x].value == r[y].value
             case NotEqual => l[x].value != r[y].value
             case LessThan => l[x].value < r[y].value
             case GreaterThan => l[x].value > r[y].value
             case LessThanOrEqual => l[x].value <= r[y].value
             case GreaterThanOrEqual => l[x].value >= r[y].value
  {
    ColumnsOfPair(leftTables, leftRows, rightTables, rightRows, l, r, x, y, ops);
    PairJoins(Compare(c, ColumnRef(x), ColumnRef(y)), leftTables, leftRows, rightTables, rightRows, ops, l, r);
  }

  /** The same written the other way around: ON b.y c a.x. */
  lemma OnColumnsFlipped(c: Comparison, x: Column, y: Column, leftTables: set<nat>, leftRows: seq<Row>, rightTables: set<nat>, rightRows: seq<Row>,
                         ops: Meaning, l: Row, r: Row)
    requires leftTables !! rightTables && WellFormedPlan(Get(leftTables, leftRows)) && WellFormedPlan(Get(rightTables, rightRows))
    requires x.table in leftTables && y.table in rightTables && l in leftRows && r in rightRows
    ensures Joinable(Compare(c, ColumnRef(y), ColumnRef(x)), leftTables, leftRows, rightTables, rightRows)
    ensures (l, r) in PairsOn(Compare(c, ColumnRef(y), ColumnRef(x)), leftTables, leftRows, rightTables, rightRows, ops)
      <==> Numbers(l, x, r, y) &&
           match c
             case Equal => r[y].value == l[x].value
             case NotEqual => r[y].value != l[x].value
             case LessThan => r[y].value < l[x].value
             case GreaterThan => r[y].value > l[x].value
             case LessThanOrEqual => r[y].value <= l[x].value
             case GreaterThanOrEqual => r[y].value >= l[x].value
  {
    ColumnsOfPair(leftTables, leftRows, rightTables, rightRows, l, r, x, y, ops);
    PairJoins(Compare(c, ColumnRef(y), ColumnRef(x)), leftTables, leftRows, rightTables, rightRows, ops, l, r);
  }

  /** ON NOT a.x c b.y: NULL joins with nothing here either. */
  lemma OnNegated(c: Comparison, x: Column, y: Column, leftTables: set<nat>, leftRows: seq<Row>, rightTables: set<nat>, rightRows: seq<Row>,
                  ops: Meaning, l: Row, r: Row)
    requires leftTables !! rightTables && WellFormedPlan(Get(leftTables, leftRows)) && WellFormedPlan(Get(rightTables, rightRows))
    requires x.table in leftTables && y.table in rightTables && l in leftRows && r in rightRows
    ensures Joinable(Not(Compare(c, ColumnRef(x), ColumnRef(y))), leftTables, leftRows, rightTables, rightRows)
    ensures (l, r) in PairsOn(Not(Compare(c, ColumnRef(x), ColumnRef(y))), leftTables, leftRows, rightTables, rightRows, ops)
      <==> Numbers(l, x, r, y) &&
           match c
             case Equal => l[x].value != r[y].value
             case NotEqual => l[x].value == r[y].value
             case LessThan => l[x].value >= r[y].value
             case GreaterThan => l[x].value <= r[y].value
             case LessThanOrEqual => l[x].value > r[y].value
             case GreaterThanOrEqual => l[x].value < r[y].value
  {
    ColumnsOfPair(leftTables, leftRows, rightTables, rightRows, l, r, x, y, ops);
    PairJoins(Not(Compare(c, ColumnRef(x), ColumnRef(y))), leftTables, leftRows, rightTables, rightRows, ops, l, r);
  }

  /** ON a.x c k, for a number k: a comparison with a constant restricts one side only. */
  lemma OnConstant(c: Comparison, x: Column, k: int, leftTables: set<nat>, leftRows: seq<Row>, rightTables: set<nat>, rightRows: seq<Row>,
                   ops: Meaning, l: Row, r: Row)
    requires leftTables !! rightTables && WellFormedPlan(Get(leftTables, leftRows)) && WellFormedPlan(Get(rightTables, rightRows))
    requires x.table in leftTables && l in leftRows && r in rightRows
    ensures Joinable(Compare(c, ColumnRef(x), Constant(Some(k))), leftTables, leftRows, rightTables, rightRows)
    ensures (l, r) in PairsOn(Compare(c, ColumnRef(x), Constant(Some(k))), leftTables, leftRows, rightTables, rightRows, ops)
      <==> x in l && l[x].Some? &&
           match c
             case Equal => l[x].value == k
             case NotEqual => l[x].value != k
             case LessThan => l[x].value < k
             case GreaterThan => l[x].value > k
             case LessThanOrEqual => l[x].value <= k
             case GreaterThanOrEqual => l[x].value >= k
  {
    LeftColumn(leftTables, leftRows, rightTables, rightRows, l, r, x, ops);
    ConstantLands(c, x, k, leftTables, rightTables);
    PairJoins(Compare(c, ColumnRef(x), Constant(Some(k))), leftTables, leftRows, rightTables, rightRows, ops, l, r);
  }

  /** ON e AND f: the pairs that join on both. */
  lemma OnBoth(e: Expression, f: Expression, leftTables: set<nat>, leftRows: seq<Row>, rightTables: set<nat>, rightRows: seq<Row>, ops: Meaning,
               l: Row, r: Row)
    requires Joinable(e, leftTables, leftRows, rightTables, rightRows) && Joinable(f, leftTables, leftRows, rightTables, rightRows)
    ensures Joinable(And([e, f]), leftTables, leftRows, rightTables, rightRows)
    ensures (l, r) in PairsOn(And([e, f]), leftTables, leftRows, rightTables, rightRows, ops)
      <==> ((l, r) in PairsOn(e, leftTables, leftRows, rightTables, rightRows, ops)
            && (l, r) in PairsOn(f, leftTables, leftRows, rightTables, rightRows, ops))
  {
    PairJoins(e, leftTables, leftRows, rightTables, rightRows, ops, l, r);
    PairJoins(f, leftTables, leftRows, rightTables, rightRows, ops, l, r);
    PairJoins(And([e, f]), leftTables, leftRows, rightTables, rightRows, ops, l, r);
    AndIsTrue([e, f], l + r, ops);
    assert [e, f][0] == e && [e, f][1] == f;
  }

  // ----- truth values -----

  /** A truth value is 1, 0 or NULL; comparing with NULL gives NULL. */
  lemma ComparisonValues(a: int, b: int, v: Value, c: Comparison, row: Row, ops: Meaning)
    ensures Eval(Compare(LessThan, Constant(Some(a)), Constant(Some(b))), row, ops) == Some(if a < b then 1 else 0)
    ensures Eval(Compare(GreaterThan, Constant(Some(a)), Constant(Some(b))), row, ops) == Some(if a > b then 1 else 0)
    ensures Eval(Compare(Equal, Constant(Some(a)), Constant(Some(b))), row, ops) == Some(if a == b then 1 else 0)
    ensures Eval(Compare(NotEqual, Constant(Some(a)), Constant(Some(b))), row, ops) == Some(if a == b then 0 else 1)
    ensures Eval(Compare(LessThanOrEqual, Constant(Some(a)), Constant(Some(b))), row, ops) == Some(if a > b then 0 else 1)
    ensures Eval(Compare(GreaterThanOrEqual, Constant(Some(a)), Constant(Some(b))), row, ops) == Some(if a < b then 0 else 1)
    ensures Eval(Compare(c, Constant(None), Constant(v)), row, ops) == None == Eval(Compare(c, Constant(v), Constant(None)), row, ops)
  {
  }

  lemma NegationValues(row: Row, ops: Meaning)
    ensures Eval(Not(Constant(Some(1))), row, ops) == Some(0)
    ensures Eval(Not(Constant(Some(0))), row, ops) == Some(1)
    ensures Eval(Not(Constant(None)), row, ops) == None
  {
  }

  /** A conjunction is 0 if one conjunct is, else NULL if one is, else 1. */
  lemma ConjunctionValues(vs: seq<Value>, row: Row, ops: Meaning)
    ensures var e := And(seq(|vs|, i requires 0 <= i < |vs| => Constant(vs[i])));
      Eval(e, row, ops) == if Some(0) in vs then Some(0) else if None in vs then None else Some(1)
  {
    var es := seq(|vs|, i requires 0 <= i < |vs| => Constant(vs[i]));
    assert seq(|es|, i requires 0 <= i < |es| => Eval(es[i], row, ops)) == vs;
  }

  /** A disjunction is 1 if one disjunct is true, else NULL if one is NULL, else 0. */
  lemma DisjunctionValues(vs: seq<Value>, row: Row, ops: Meaning)
    ensures var e := Or(seq(|vs|, i requires 0 <= i < |vs| => Constant(vs[i])));
      Eval(e, row, ops)
        == if exists i :: 0 <= i < |vs| && vs[i].Some? && vs[i].value != 0 then Some(1) else if None in vs then None else Some(0)
  {
    var es := seq(|vs|, i requires 0 <= i < |vs| => Constant(vs[i]));
    assert seq(|es|, i requires 0 <= i < |es| => Eval(es[i], row, ops)) == vs;
  }
}
