/** What becomes of the ON condition of a join: conditions between the two sides, and filters on one of them.

  Truth values are those of SQL, with NULL for unknown. */
module Join {
  import opened Versions

  /** None is NULL.  A truth value is a number other than 0 for true, and 0 for false. */
  type Value = Option<int>

  datatype Column = Column(table: nat, index: nat)

  /** The values of the columns of some tables. */
  type Row = map<Column, Value>

  /** Functions and operators other than comparisons and connectives, by their number. */
  type Meaning = (nat, seq<Value>) -> Value

  datatype Comparison = Equal | NotEqual | LessThan | GreaterThan | LessThanOrEqual | GreaterThanOrEqual

  datatype Expression =
    | ColumnRef(column: Column)
    | Constant(value: Value)
    | Operator(symbol: nat, children: seq<Expression>)
    | Compare(comparison: Comparison, left: Expression, right: Expression)
    | And(children: seq<Expression>)
    | Or(children: seq<Expression>)
    | Not(child: Expression)

  function Truth(b: bool): Value { Some(if b then 1 else 0) }

  predicate IsTrue(v: Value) { v.Some? && v.value != 0 }

  predicate IsFalse(v: Value) { v == Some(0) }

  function Holds(c: Comparison, a: int, b: int): bool {
    match c
    case Equal => a == b
    case NotEqual => a != b
    case LessThan => a < b
    case GreaterThan => a > b
    case LessThanOrEqual => a <= b
    case GreaterThanOrEqual => a >= b
  }

  /** Comparing with NULL gives NULL. */
  function Compared(c: Comparison, a: Value, b: Value): Value {
    if a.None? || b.None? then None else Truth(Holds(c, a.value, b.value))
  }

  function Negation(v: Value): Value {
    if v.None? then None else Truth(v.value == 0)
  }

  function Conjunction(vs: seq<Value>): Value {
    if exists i :: 0 <= i < |vs| && IsFalse(vs[i]) then Some(0)
    else if exists i :: 0 <= i < |vs| && vs[i].None? then None else Some(1)
  }

  function Disjunction(vs: seq<Value>): Value {
    if exists i :: 0 <= i < |vs| && IsTrue(vs[i]) then Some(1)
    else if exists i :: 0 <= i < |vs| && vs[i].None? then None else Some(0)
  }

  function Eval(e: Expression, row: Row, ops: Meaning): Value {
    match e
    case ColumnRef(c) => if c in row then row[c] else None
    case Constant(v) => v
    case Operator(symbol, children) => ops(symbol, seq(|children|, i requires 0 <= i < |children| => Eval(children[i], row, ops)))
    case Compare(c, l, r) => Compared(c, Eval(l, row, ops), Eval(r, row, ops))
    case And(children) => Conjunction(seq(|children|, i requires 0 <= i < |children| => Eval(children[i], row, ops)))
    case Or(children) => Disjunction(seq(|children|, i requires 0 <= i < |children| => Eval(children[i], row, ops)))
    case Not(child) => Negation(Eval(child, row, ops))
  }

  function Children(e: Expression): seq<Expression> {
    match e
    case ColumnRef(_) => []
    case Constant(_) => []
    case Operator(_, children) => children
    case Compare(_, l, r) => [l, r]
    case And(children) => children
    case Or(children) => children
    case Not(child) => [child]
  }

  /** The expression refers to columns of these tables only. */
  ghost predicate RefersTo(e: Expression, tables: set<nat>) {
    match e
    case ColumnRef(c) => c.table in tables
    case Constant(_) => true
    case Operator(_, children) => forall c :: c in children ==> RefersTo(c, tables)
    case Compare(_, l, r) => RefersTo(l, tables) && RefersTo(r, tables)
    case And(children) => forall c :: c in children ==> RefersTo(c, tables)
    case Or(children) => forall c :: c in children ==> RefersTo(c, tables)
    case Not(child) => RefersTo(child, tables)
  }

  /** The rows agree about the columns of these tables. */
  ghost predicate Agree(a: Row, b: Row, tables: set<nat>) {
    forall c: Column :: c.table in tables ==> (c in a <==> c in b) && (c in a ==> a[c] == b[c])
  }

  lemma {:induction false} EvalAgrees(e: Expression, a: Row, b: Row, tables: set<nat>, ops: Meaning)
    requires RefersTo(e, tables) && Agree(a, b, tables)
    ensures Eval(e, a, ops) == Eval(e, b, ops)
  {
    match e
    case ColumnRef(_) =>
    case Constant(_) =>
    case Operator(_, children) =>
      forall i | 0 <= i < |children| { EvalAgrees(children[i], a, b, tables, ops); }
      assert seq(|children|, i requires 0 <= i < |children| => Eval(children[i], a, ops))
          == seq(|children|, i requires 0 <= i < |children| => Eval(children[i], b, ops));
    case Compare(_, l, r) =>
      EvalAgrees(l, a, b, tables, ops);
      EvalAgrees(r, a, b, tables, ops);
    case And(children) =>
      forall i | 0 <= i < |children| { EvalAgrees(children[i], a, b, tables, ops); }
      assert seq(|children|, i requires 0 <= i < |children| => Eval(children[i], a, ops))
          == seq(|children|, i requires 0 <= i < |children| => Eval(children[i], b, ops));
    case Or(children) =>
      forall i | 0 <= i < |children| { EvalAgrees(children[i], a, b, tables, ops); }
      assert seq(|children|, i requires 0 <= i < |children| => Eval(children[i], a, ops))
          == seq(|children|, i requires 0 <= i < |children| => Eval(children[i], b, ops));
    case Not(child) => EvalAgrees(child, a, b, tables, ops);
  }

  lemma AndIsTrue(children: seq<Expression>, row: Row, ops: Meaning)
    ensures IsTrue(Eval(And(children), row, ops)) <==> forall c :: c in children ==> IsTrue(Eval(c, row, ops))
  {
    var vs := seq(|children|, i requires 0 <= i < |children| => Eval(children[i], row, ops));
    assert Eval(And(children), row, ops) == Conjunction(vs);
    assert forall i :: 0 <= i < |children| ==> vs[i] == Eval(children[i], row, ops) && children[i] in children;
  }

  // ----- sides -----

  datatype JoinSide = NONE | LEFT | RIGHT | BOTH

  function Merge(side: JoinSide, child: JoinSide): JoinSide {
    if child == side then side else if side == NONE then child else BOTH
  }

  /** The side of the first children, then of the others. */
  function SideOfChildren(left: set<nat>, right: set<nat>, e: Expression, i: nat, side: JoinSide): JoinSide
    requires i <= |Children(e)|
    decreases e, |Children(e)| - i
  {
    if i == |Children(e)| then side
    else SideOfChildren(left, right, e, i + 1, Merge(side, GetJoinSide(left, right, Children(e)[i])))
  }

  /** Which of the two sides an expression refers to. */
  function GetJoinSide(left: set<nat>, right: set<nat>, e: Expression): JoinSide
    decreases e, |Children(e)| + 1
  {
    if e.ColumnRef? then (if e.column.table in left then LEFT else if e.column.table in right then RIGHT else NONE)
    else SideOfChildren(left, right, e, 0, NONE)
  }

  /** The expression refers to columns of the two sides only. */
  ghost predicate SideIs(e: Expression, left: set<nat>, right: set<nat>, side: JoinSide) {
    match side
    case NONE => RefersTo(e, {})
    case LEFT => RefersTo(e, left)
    case RIGHT => RefersTo(e, right)
    case BOTH => true
  }

  lemma {:induction false} RefersToMore(e: Expression, a: set<nat>, b: set<nat>)
    requires RefersTo(e, a) && a <= b
    ensures RefersTo(e, b)
  {
    match e
    case ColumnRef(_) =>
    case Constant(_) =>
    case Operator(_, children) => forall c | c in children ensures RefersTo(c, b) { RefersToMore(c, a, b); }
    case Compare(_, l, r) => RefersToMore(l, a, b); RefersToMore(r, a, b);
    case And(children) => forall c | c in children ensures RefersTo(c, b) { RefersToMore(c, a, b); }
    case Or(children) => forall c | c in children ensures RefersTo(c, b) { RefersToMore(c, a, b); }
    case Not(child) => RefersToMore(child, a, b);
  }

  lemma ChildrenRefer(e: Expression, tables: set<nat>)
    requires !e.ColumnRef?
    ensures RefersTo(e, tables) <==> forall i :: 0 <= i < |Children(e)| ==> RefersTo(Children(e)[i], tables)
  {
    var cs := Children(e);
    assert forall c :: c in cs <==> exists i :: 0 <= i < |cs| && cs[i] == c;
    if e.Compare? { assert cs[0] == e.left && cs[1] == e.right; }
    if e.Not? { assert cs[0] == e.child; }
  }

  /** The side that was found bounds what the expression refers to. */
  lemma {:induction false} SideBounds(left: set<nat>, right: set<nat>, e: Expression)
    requires RefersTo(e, left + right)
    ensures SideIs(e, left, right, GetJoinSide(left, right, e))
    decreases e, |Children(e)| + 1
  {
    if !e.ColumnRef? {
      ChildrenRefer(e, left + right);
      ChildrenBound(left, right, e, 0, NONE);
      ChildrenRefer(e, {});
      ChildrenRefer(e, left);
      ChildrenRefer(e, right);
    }
  }

  lemma {:induction false} ChildrenBound(left: set<nat>, right: set<nat>, e: Expression, i: nat, side: JoinSide)
    requires !e.ColumnRef? && i <= |Children(e)|
    requires forall k :: 0 <= k < |Children(e)| ==> RefersTo(Children(e)[k], left + right)
    requires forall k :: 0 <= k < i ==> SideIs(Children(e)[k], left, right, side)
    ensures forall k :: 0 <= k < |Children(e)| ==> SideIs(Children(e)[k], left, right, SideOfChildren(left, right, e, i, side))
    decreases e, |Children(e)| - i
  {
    if i < |Children(e)| {
      var found := GetJoinSide(left, right, Children(e)[i]);
      SideBounds(left, right, Children(e)[i]);
      forall k | 0 <= k < i + 1 ensures SideIs(Children(e)[k], left, right, Merge(side, found)) {
        if side == NONE && k < i {
          RefersToMore(Children(e)[k], {}, left);
          RefersToMore(Children(e)[k], {}, right);
        }
      }
      ChildrenBound(left, right, e, i + 1, Merge(side, found));
    }
  }

  /** Once a side is set, every other child must have the very same side, even one that refers to no column at all. */
  lemma {:induction false} SideStays(left: set<nat>, right: set<nat>, e: Expression, i: nat, side: JoinSide)
    requires i <= |Children(e)| && side != NONE
    ensures SideOfChildren(left, right, e, i, side) == side || SideOfChildren(left, right, e, i, side) == BOTH
    ensures SideOfChildren(left, right, e, i, side) == side && side != BOTH <==>
      side != BOTH && forall k :: i <= k < |Children(e)| ==> GetJoinSide(left, right, Children(e)[k]) == side
    decreases |Children(e)| - i
  {
    if i < |Children(e)| {
      SideStays(left, right, e, i + 1, Merge(side, GetJoinSide(left, right, Children(e)[i])));
    }
  }

  /** Exactly when an expression counts as one side: some children without columns, and then only children of that side. */
  lemma {:induction false} SideExactly(left: set<nat>, right: set<nat>, e: Expression, i: nat, side: JoinSide)
    requires i <= |Children(e)| && (side == LEFT || side == RIGHT)
    ensures SideOfChildren(left, right, e, i, NONE) == side <==> exists k :: i <= k < |Children(e)| && SideFrom(left, right, e, i, k, side)
    decreases |Children(e)| - i
  {
    var cs := Children(e);
    if i < |cs| {
      var found := GetJoinSide(left, right, cs[i]);
      if found == NONE {
        var j := i + 1;
        SideExactly(left, right, e, j, side);
        if k :| j <= k < |cs| && SideFrom(left, right, e, j, k, side) { assert SideFrom(left, right, e, i, k, side); }
        if k :| i <= k < |cs| && SideFrom(left, right, e, i, k, side) { assert SideFrom(left, right, e, j, k, side); }
      } else {
        SideStays(left, right, e, i + 1, found);
        if found == side && SideOfChildren(left, right, e, i, NONE) == side { assert SideFrom(left, right, e, i, i, side); }
        if k :| i <= k < |cs| && SideFrom(left, right, e, i, k, side) { assert k == i; }
      }
    }
  }

  ghost predicate SideFrom(left: set<nat>, right: set<nat>, e: Expression, i: nat, k: nat, side: JoinSide)
    requires i <= k < |Children(e)|
  {
    && (forall j :: i <= j < k ==> GetJoinSide(left, right, Children(e)[j]) == NONE)
    && (forall j :: k <= j < |Children(e)| ==> GetJoinSide(left, right, Children(e)[j]) == side)
  }

  /** A column of the left side plus a constant counts as referring to both sides; the sum the other way round does not. */
  lemma ConstantsConfuseSides(symbol: nat, column: Column, value: Value)
    ensures GetJoinSide({column.table}, {}, Operator(symbol, [ColumnRef(column), Constant(value)])) == BOTH
    ensures GetJoinSide({column.table}, {}, Operator(symbol, [Constant(value), ColumnRef(column)])) == LEFT
  {
    var e, f := Operator(symbol, [ColumnRef(column), Constant(value)]), Operator(symbol, [Constant(value), ColumnRef(column)]);
    assert SideOfChildren({column.table}, {}, Constant(value), 0, NONE) == NONE;
    assert GetJoinSide({column.table}, {}, Constant(value)) == NONE && GetJoinSide({column.table}, {}, ColumnRef(column)) == LEFT;
    assert Children(e) == [ColumnRef(column), Constant(value)] && Children(f) == [Constant(value), ColumnRef(column)];
    assert SideOfChildren({column.table}, {}, e, 2, BOTH) == BOTH;
    assert SideOfChildren({column.table}, {}, e, 1, LEFT) == BOTH;
    assert SideOfChildren({column.table}, {}, f, 2, LEFT) == LEFT;
    assert SideOfChildren({column.table}, {}, f, 1, NONE) == LEFT;
  }

  // ----- comparisons -----

  function Negate(c: Comparison): Comparison {
    match c
    case Equal => NotEqual
    case NotEqual => Equal
    case LessThan => GreaterThanOrEqual
    case GreaterThan => LessThanOrEqual
    case LessThanOrEqual => GreaterThan
    case GreaterThanOrEqual => LessThan
  }

  function Flip(c: Comparison): Comparison {
    match c
    case Equal => Equal
    case NotEqual => NotEqual
    case LessThan => GreaterThan
    case GreaterThan => LessThan
    case LessThanOrEqual => GreaterThanOrEqual
    case GreaterThanOrEqual => LessThanOrEqual
  }

  /** The negated comparison is the negation, and the flipped one compares the other way round, NULLs included. */
  lemma NegateAndFlip(c: Comparison, a: Value, b: Value)
    ensures Compared(Negate(c), a, b) == Negation(Compared(c, a, b))
    ensures Compared(Flip(c), b, a) == Compared(c, a, b)
    ensures Negate(Negate(c)) == c && Flip(Flip(c)) == c
  {
  }

  // ----- plans -----

  datatype Plan = Get(tables: set<nat>, rows: seq<Row>) | Filter(expressions: seq<Expression>, child: Plan)

  function Tables(p: Plan): set<nat> {
    match p case Get(tables, _) => tables case Filter(_, child) => Tables(child)
  }

  predicate Passes(expressions: seq<Expression>, row: Row, ops: Meaning) {
    forall e :: e in expressions ==> IsTrue(Eval(e, row, ops))
  }

  function Filtered(rows: seq<Row>, expressions: seq<Expression>, ops: Meaning): seq<Row> {
    if rows == [] then [] else (if Passes(expressions, rows[0], ops) then [rows[0]] else []) + Filtered(rows[1..], expressions, ops)
  }

  function Rows(p: Plan, ops: Meaning): seq<Row> {
    match p case Get(_, rows) => rows case Filter(es, child) => Filtered(Rows(child, ops), es, ops)
  }

  /** The rows of a plan have columns of its tables only. */
  ghost predicate WellFormedPlan(p: Plan) {
    match p
    case Get(tables, rows) => forall i, c: Column :: 0 <= i < |rows| && c in rows[i] ==> c.table in tables
    case Filter(es, child) => WellFormedPlan(child) && forall e :: e in es ==> RefersTo(e, Tables(child))
  }

  /** Splits a predicate along AND. */
  function SplitPredicates(e: Expression): seq<Expression>
    decreases e, 1 + if e.And? then |e.children| else 0
  {
    if e.And? then SplitChildren(e, 0) else [e]
  }

  function SplitChildren(e: Expression, i: nat): seq<Expression>
    requires e.And? && i <= |e.children|
    decreases e, |e.children| - i
  {
    if i == |e.children| then [] else SplitPredicates(e.children[i]) + SplitChildren(e, i + 1)
  }

  /** A row passes the split predicates exactly if the whole predicate is true of it. */
  lemma {:induction false} SplitMeansTheSame(e: Expression, row: Row, ops: Meaning)
    ensures Passes(SplitPredicates(e), row, ops) <==> IsTrue(Eval(e, row, ops))
    decreases e, 1 + if e.And? then |e.children| else 0
  {
    if e.And? {
      SplitChildrenMean(e, 0, row, ops);
      AndIsTrue(e.children, row, ops);
    }
  }

  lemma {:induction false} SplitChildrenMean(e: Expression, i: nat, row: Row, ops: Meaning)
    requires e.And? && i <= |e.children|
    ensures Passes(SplitChildren(e, i), row, ops) <==> forall k :: i <= k < |e.children| ==> IsTrue(Eval(e.children[k], row, ops))
    decreases e, |e.children| - i
  {
    if i < |e.children| {
      SplitMeansTheSame(e.children[i], row, ops);
      SplitChildrenMean(e, i + 1, row, ops);
    }
  }

  datatype JoinCondition = JoinCondition(left: Expression, right: Expression, comparison: Comparison)

  /** The two children of a join, and its conditions. */
  datatype JoinState = JoinState(left: Plan, right: Plan, conditions: seq<JoinCondition>)

  function AddFilter(p: Plan, e: Expression): Plan { Filter(SplitPredicates(e), p) }

  /** What a comparison becomes: a condition, the other way round if need be, or a filter. */
  function SetComparison(s: JoinState, c: Comparison, l: Expression, r: Expression): JoinState {
    var ls, rs := GetJoinSide(Tables(s.left), Tables(s.right), l), GetJoinSide(Tables(s.left), Tables(s.right), r);
    if ls == LEFT && rs == RIGHT then s.(conditions := s.conditions + [JoinCondition(l, r, c)])
    else if ls == RIGHT && rs == LEFT then s.(conditions := s.conditions + [JoinCondition(r, l, Flip(c))])
    else if ls == LEFT || rs == LEFT then s.(left := AddFilter(s.left, Compare(c, l, r)))
    else s.(right := AddFilter(s.right, Compare(c, l, r)))
  }

  /** None stands for the exception about NOT. */
  function SetCondition(s: JoinState, e: Expression): Option<JoinState>
    decreases e, 1 + if e.And? then |e.children| else 0
  {
    match e
    case And(_) => SetChildren(s, e, 0)
    case Compare(c, l, r) => Some(SetComparison(s, c, l, r))
    case Not(child) => if child.Compare? then Some(SetComparison(s, Negate(child.comparison), child.left, child.right)) else None
    case _ => Some(s)
  }

  function SetChildren(s: JoinState, e: Expression, i: nat): Option<JoinState>
    requires e.And? && i <= |e.children|
    decreases e, |e.children| - i
  {
    if i == |e.children| then Some(s) else
    match SetCondition(s, e.children[i])
    case None => None
    case Some(t) => SetChildren(t, e, i + 1)
  }

  /** The part of a condition that the join looks at: other shapes than AND, comparisons and NOT are dropped silently. */
  ghost predicate KeptTrue(e: Expression, row: Row, ops: Meaning) {
    match e
    case And(children) => forall c :: c in children ==> KeptTrue(c, row, ops)
    case Compare(_, _, _) => IsTrue(Eval(e, row, ops))
    case Not(_) => IsTrue(Eval(e, row, ops))
    case _ => true
  }

  /** ANDs of comparisons and negated comparisons. */
  ghost predicate Grammatical(e: Expression) {
    match e
    case And(children) => forall c :: c in children ==> Grammatical(c)
    case Compare(_, _, _) => true
    case Not(child) => child.Compare?
    case _ => false
  }

  lemma {:induction false} GrammaticalIsKept(e: Expression, row: Row, ops: Meaning)
    requires Grammatical(e)
    ensures KeptTrue(e, row, ops) <==> IsTrue(Eval(e, row, ops))
  {
    if e.And? {
      forall c | c in e.children { GrammaticalIsKept(c, row, ops); }
      AndIsTrue(e.children, row, ops);
    }
  }

  /** The operands of a comparison only refer to tables that they can be evaluated on where SetComparison puts them. */
  ghost predicate Lands(a: Expression, b: Expression, left: set<nat>, right: set<nat>) {
    var ls, rs := GetJoinSide(left, right, a), GetJoinSide(left, right, b);
    var tables := if (ls == LEFT && rs == RIGHT) || (ls == RIGHT && rs == LEFT) then left + right
                  else if ls == LEFT || rs == LEFT then left else right;
    RefersTo(a, tables) && RefersTo(b, tables)
  }

  /** All comparisons of a condition land where they can be evaluated. */
  ghost predicate Placeable(e: Expression, left: set<nat>, right: set<nat>) {
    match e
    case And(children) => forall c :: c in children ==> Placeable(c, left, right)
    case Compare(_, l, r) => Lands(l, r, left, right)
    case Not(child) => child.Compare? ==> Lands(child.left, child.right, left, right)
    case _ => true
  }

  /** It is enough that no operand counts as both sides. */
  lemma OneSidedLands(a: Expression, b: Expression, left: set<nat>, right: set<nat>)
    requires RefersTo(a, left + right) && RefersTo(b, left + right)
    requires GetJoinSide(left, right, a) != BOTH && GetJoinSide(left, right, b) != BOTH
    ensures Lands(a, b, left, right)
  {
    SideBounds(left, right, a);
    SideBounds(left, right, b);
    if RefersTo(a, {}) {
      RefersToMore(a, {}, left);
      RefersToMore(a, {}, right);
    }
    if RefersTo(b, {}) {
      RefersToMore(b, {}, left);
      RefersToMore(b, {}, right);
    }
  }

  // ----- where expressions can be evaluated -----

  /** Every filter of a plan refers to tables below it. */
  ghost predicate Contained(p: Plan) {
    match p case Get(_, _) => true case Filter(es, child) => Contained(child) && forall e :: e in es ==> RefersTo(e, Tables(child))
  }

  ghost predicate ConditionsContained(conditions: seq<JoinCondition>, left: set<nat>, right: set<nat>) {
    forall c :: c in conditions ==> RefersTo(c.left, left) && RefersTo(c.right, right)
  }

  /** Every expression of a join refers to the tables below it, those of a condition to the tables of their side. */
  ghost predicate AllContained(s: JoinState) {
    Contained(s.left) && Contained(s.right) && ConditionsContained(s.conditions, Tables(s.left), Tables(s.right))
  }

  lemma FilterContained(p: Plan, c: Comparison, a: Expression, b: Expression)
    ensures Contained(AddFilter(p, Compare(c, a, b))) <==> Contained(p) && RefersTo(a, Tables(p)) && RefersTo(b, Tables(p))
  {
    var e := Compare(c, a, b);
    assert SplitPredicates(e) == [e] && e in [e];
    assert RefersTo(e, Tables(p)) <==> RefersTo(a, Tables(p)) && RefersTo(b, Tables(p));
  }

  /** On a side of its own an operand refers to both sides' tables exactly if it refers to those of its side. */
  lemma SideContained(e: Expression, left: set<nat>, right: set<nat>)
    ensures GetJoinSide(left, right, e) == LEFT ==> (RefersTo(e, left + right) <==> RefersTo(e, left))
    ensures GetJoinSide(left, right, e) == RIGHT ==> (RefersTo(e, left + right) <==> RefersTo(e, right))
  {
    if RefersTo(e, left + right) { SideBounds(left, right, e); }
    if RefersTo(e, left) { RefersToMore(e, left, left + right); }
    if RefersTo(e, right) { RefersToMore(e, right, left + right); }
  }

  lemma ConditionsContainedMore(conditions: seq<JoinCondition>, c: JoinCondition, left: set<nat>, right: set<nat>)
    ensures ConditionsContained(conditions + [c], left, right)
      <==> ConditionsContained(conditions, left, right) && RefersTo(c.left, left) && RefersTo(c.right, right)
  {
    assert c in conditions + [c] && forall d :: d in conditions ==> d in conditions + [c];
  }

  /** After a comparison every expression can be evaluated where it is, exactly if that was so before and the comparison
      lands well. */
  lemma ComparisonContained(s: JoinState, c: Comparison, a: Expression, b: Expression)
    ensures AllContained(SetComparison(s, c, a, b)) <==> AllContained(s) && Lands(a, b, Tables(s.left), Tables(s.right))
    ensures Tables(SetComparison(s, c, a, b).left) == Tables(s.left) && Tables(SetComparison(s, c, a, b).right) == Tables(s.right)
  {
    var left, right := Tables(s.left), Tables(s.right);
    var ls, rs := GetJoinSide(left, right, a), GetJoinSide(left, right, b);
    SideContained(a, left, right);
    SideContained(b, left, right);
    if ls == LEFT && rs == RIGHT {
      ConditionsContainedMore(s.conditions, JoinCondition(a, b, c), left, right);
    } else if ls == RIGHT && rs == LEFT {
      ConditionsContainedMore(s.conditions, JoinCondition(b, a, Flip(c)), left, right);
    } else if ls == LEFT || rs == LEFT {
      FilterContained(s.left, c, a, b);
    } else {
      FilterContained(s.right, c, a, b);
    }
  }

  /** The same for a whole condition. */
  lemma {:induction false} ConditionContained(s: JoinState, e: Expression)
    requires SetCondition(s, e).Some?
    ensures var t := SetCondition(s, e).value;
      && (AllContained(t) <==> AllContained(s) && Placeable(e, Tables(s.left), Tables(s.right)))
      && Tables(t.left) == Tables(s.left) && Tables(t.right) == Tables(s.right)
    decreases e, 1 + if e.And? then |e.children| else 0
  {
    match e
    case And(children) =>
      ChildrenContained(s, e, 0);
      assert forall c :: c in children <==> exists k :: 0 <= k < |children| && children[k] == c;
    case Compare(c, a, b) => ComparisonContained(s, c, a, b);
    case Not(child) => ComparisonContained(s, Negate(child.comparison), child.left, child.right);
    case _ =>
  }

  lemma {:induction false} ChildrenContained(s: JoinState, e: Expression, i: nat)
    requires e.And? && i <= |e.children| && SetChildren(s, e, i).Some?
    ensures var t := SetChildren(s, e, i).value;
      && (AllContained(t) <==> AllContained(s) && forall k :: i <= k < |e.children| ==> Placeable(e.children[k], Tables(s.left), Tables(s.right)))
      && Tables(t.left) == Tables(s.left) && Tables(t.right) == Tables(s.right)
    decreases e, |e.children| - i
  {
    if i < |e.children| {
      ConditionContained(s, e.children[i]);
      ChildrenContained(SetCondition(s, e.children[i]).value, e, i + 1);
    }
  }

  // ----- the meaning of the join -----

  /** The condition of a pair of rows. */
  predicate Matches(conditions: seq<JoinCondition>, l: Row, r: Row, ops: Meaning) {
    forall c :: c in conditions ==> IsTrue(Compared(c.comparison, Eval(c.left, l, ops), Eval(c.right, r, ops)))
  }

  /** A row passes all filters of a plan. */
  ghost predicate PassesPlan(p: Plan, row: Row, ops: Meaning) {
    match p case Get(_, _) => true case Filter(es, child) => PassesPlan(child, row, ops) && Passes(es, row, ops)
  }

  ghost predicate Joined(s: JoinState, l: Row, r: Row, ops: Meaning) {
    PassesPlan(s.left, l, ops) && PassesPlan(s.right, r, ops) && Matches(s.conditions, l, r, ops)
  }

  ghost predicate RowOf(row: Row, tables: set<nat>) {
    forall c: Column :: c in row ==> c.table in tables
  }

  lemma PairAgrees(l: Row, r: Row, left: set<nat>, right: set<nat>)
    requires RowOf(l, left) && RowOf(r, right) && left !! right
    ensures Agree(l, l + r, left) && Agree(r, l + r, right) && Agree(l, l + r, {}) && Agree(r, l + r, {})
  {
  }

  /** A comparison ends up where it decides about exactly the pairs that it is true of. */
  lemma ComparisonKept(s: JoinState, c: Comparison, a: Expression, b: Expression, l: Row, r: Row, ops: Meaning)
    requires Lands(a, b, Tables(s.left), Tables(s.right))
    requires RowOf(l, Tables(s.left)) && RowOf(r, Tables(s.right)) && Tables(s.left) !! Tables(s.right)
    ensures Joined(SetComparison(s, c, a, b), l, r, ops) <==> Joined(s, l, r, ops) && IsTrue(Eval(Compare(c, a, b), l + r, ops))
    ensures Tables(SetComparison(s, c, a, b).left) == Tables(s.left) && Tables(SetComparison(s, c, a, b).right) == Tables(s.right)
  {
    var left, right := Tables(s.left), Tables(s.right);
    PairAgrees(l, r, left, right);
    SideContained(a, left, right);
    SideContained(b, left, right);
    SplitMeansTheSame(Compare(c, a, b), l, ops);
    SplitMeansTheSame(Compare(c, a, b), r, ops);
    NegateAndFlip(c, Eval(a, l + r, ops), Eval(b, l + r, ops));
    var ls, rs := GetJoinSide(left, right, a), GetJoinSide(left, right, b);
    if ls == LEFT && rs == RIGHT {
      EvalAgrees(a, l, l + r, left, ops);
      EvalAgrees(b, r, l + r, right, ops);
      MatchesMore(s.conditions, JoinCondition(a, b, c), l, r, ops);
    } else if ls == RIGHT && rs == LEFT {
      EvalAgrees(a, r, l + r, right, ops);
      EvalAgrees(b, l, l + r, left, ops);
      MatchesMore(s.conditions, JoinCondition(b, a, Flip(c)), l, r, ops);
    } else if ls == LEFT || rs == LEFT {
      EvalAgrees(a, l, l + r, left, ops);
      EvalAgrees(b, l, l + r, left, ops);
    } else {
      EvalAgrees(a, r, l + r, right, ops);
      EvalAgrees(b, r, l + r, right, ops);
    }
  }

  lemma MatchesMore(conditions: seq<JoinCondition>, c: JoinCondition, l: Row, r: Row, ops: Meaning)
    ensures Matches(conditions + [c], l, r, ops)
      <==> Matches(conditions, l, r, ops) && IsTrue(Compared(c.comparison, Eval(c.left, l, ops), Eval(c.right, r, ops)))
  {
    assert c in conditions + [c] && forall d :: d in conditions ==> d in conditions + [c];
  }

  /** Distributing a condition over the join keeps its meaning for every pair of rows. */
  lemma {:induction false} ConditionKept(s: JoinState, e: Expression, l: Row, r: Row, ops: Meaning)
    requires Placeable(e, Tables(s.left), Tables(s.right)) && SetCondition(s, e).Some?
    requires RowOf(l, Tables(s.left)) && RowOf(r, Tables(s.right)) && Tables(s.left) !! Tables(s.right)
    ensures var t := SetCondition(s, e).value;
      && (Joined(t, l, r, ops) <==> Joined(s, l, r, ops) && KeptTrue(e, l + r, ops))
      && Tables(t.left) == Tables(s.left) && Tables(t.right) == Tables(s.right)
    decreases e, 1 + if e.And? then |e.children| else 0
  {
    match e
    case And(_) => ChildrenKept(s, e, 0, l, r, ops);
    case Compare(c, a, b) => ComparisonKept(s, c, a, b, l, r, ops);
    case Not(child) =>
      ComparisonKept(s, Negate(child.comparison), child.left, child.right, l, r, ops);
      NegateAndFlip(child.comparison, Eval(child.left, l + r, ops), Eval(child.right, l + r, ops));
      assert Eval(child, l + r, ops) == Compared(child.comparison, Eval(child.left, l + r, ops), Eval(child.right, l + r, ops));
      assert Eval(Compare(Negate(child.comparison), child.left, child.right), l + r, ops) == Eval(e, l + r, ops);
    case _ =>
  }

  lemma {:induction false} ChildrenKept(s: JoinState, e: Expression, i: nat, l: Row, r: Row, ops: Meaning)
    requires e.And? && i <= |e.children| && Placeable(e, Tables(s.left), Tables(s.right)) && SetChildren(s, e, i).Some?
    requires RowOf(l, Tables(s.left)) && RowOf(r, Tables(s.right)) && Tables(s.left) !! Tables(s.right)
    ensures var t := SetChildren(s, e, i).value;
      && (Joined(t, l, r, ops) <==> Joined(s, l, r, ops) && forall k :: i <= k < |e.children| ==> KeptTrue(e.children[k], l + r, ops))
      && Tables(t.left) == Tables(s.left) && Tables(t.right) == Tables(s.right)
    decreases e, |e.children| - i
  {
    if i < |e.children| {
      ConditionKept(s, e.children[i], l, r, ops);
      ChildrenKept(SetCondition(s, e.children[i]).value, e, i + 1, l, r, ops);
    }
  }

  // ----- the rows of the join -----

  type Pair = (Row, Row)

  function MatchesOf(conditions: seq<JoinCondition>, l: Row, rs: seq<Row>, ops: Meaning): seq<Pair> {
    if rs == [] then [] else (if Matches(conditions, l, rs[0], ops) then [(l, rs[0])] else []) + MatchesOf(conditions, l, rs[1..], ops)
  }

  /** The matching pairs of two lists of rows, in the order of the left list, then of the right one. */
  function JoinRows(conditions: seq<JoinCondition>, ls: seq<Row>, rs: seq<Row>, ops: Meaning): seq<Pair> {
    if ls == [] then [] else MatchesOf(conditions, ls[0], rs, ops) + JoinRows(conditions, ls[1..], rs, ops)
  }

  function JoinOutput(s: JoinState, ops: Meaning): seq<Pair> {
    JoinRows(s.conditions, Rows(s.left, ops), Rows(s.right, ops), ops)
  }

  /** The pairs of two lists of rows that a predicate is true of. */
  ghost function PairsOf(p: (Row, Row) -> bool, l: Row, rs: seq<Row>): seq<Pair> {
    if rs == [] then [] else (if p(l, rs[0]) then [(l, rs[0])] else []) + PairsOf(p, l, rs[1..])
  }

  ghost function CrossWhere(p: (Row, Row) -> bool, ls: seq<Row>, rs: seq<Row>): seq<Pair> {
    if ls == [] then [] else PairsOf(p, ls[0], rs) + CrossWhere(p, ls[1..], rs)
  }

  /** The rows at the bottom of a plan. */
  ghost function Base(p: Plan): seq<Row> {
    match p case Get(_, rows) => rows case Filter(_, child) => Base(child)
  }

  ghost function Selected(rows: seq<Row>, p: Row -> bool): seq<Row> {
    if rows == [] then [] else (if p(rows[0]) then [rows[0]] else []) + Selected(rows[1..], p)
  }

  lemma SelectedStep(rows: seq<Row>, p: Row -> bool)
    requires rows != []
    ensures if p(rows[0]) then Selected(rows, p) != [] && Selected(rows, p)[0] == rows[0] && Selected(rows, p)[1..] == Selected(rows[1..], p)
            else Selected(rows, p) == Selected(rows[1..], p)
  {
  }

  lemma {:induction false} FilteredSelected(rows: seq<Row>, p: Row -> bool, q: Row -> bool, es: seq<Expression>, ops: Meaning)
    requires forall row :: q(row) <==> p(row) && Passes(es, row, ops)
    ensures Filtered(Selected(rows, p), es, ops) == Selected(rows, q)
  {
    if rows != [] {
      FilteredSelected(rows[1..], p, q, es, ops);
      SelectedStep(rows, p);
      SelectedStep(rows, q);
    }
  }

  /** The rows of a plan are those at its bottom that pass its filters. */
  lemma {:induction false} RowsAreSelected(p: Plan, ops: Meaning)
    ensures Rows(p, ops) == Selected(Base(p), row => PassesPlan(p, row, ops))
  {
    match p
    case Get(_, rows) => AllSelected(rows, row => PassesPlan(p, row, ops));
    case Filter(es, child) =>
      RowsAreSelected(child, ops);
      FilteredSelected(Base(child), row => PassesPlan(child, row, ops), row => PassesPlan(p, row, ops), es, ops);
  }

  lemma {:induction false} AllSelected(rows: seq<Row>, p: Row -> bool)
    requires forall row :: p(row)
    ensures Selected(rows, p) == rows
  {
    if rows != [] { AllSelected(rows[1..], p); }
  }

  lemma {:induction false} MatchesSelected(conditions: seq<JoinCondition>, l: Row, rs: seq<Row>, q: Row -> bool, w: (Row, Row) -> bool, ops: Meaning)
    requires forall r :: r in rs ==> (w(l, r) <==> q(r) && Matches(conditions, l, r, ops))
    ensures MatchesOf(conditions, l, Selected(rs, q), ops) == PairsOf(w, l, rs)
  {
    if rs != [] {
      MatchesSelected(conditions, l, rs[1..], q, w, ops);
      SelectedStep(rs, q);
      assert rs[0] in rs;
    }
  }

  lemma {:induction false} NoPairs(l: Row, rs: seq<Row>, w: (Row, Row) -> bool)
    requires forall r :: r in rs ==> !w(l, r)
    ensures PairsOf(w, l, rs) == []
  {
    if rs != [] { NoPairs(l, rs[1..], w); }
  }

  lemma {:induction false} JoinSelected(conditions: seq<JoinCondition>, ls: seq<Row>, rs: seq<Row>, p: Row -> bool, q: Row -> bool,
                                        w: (Row, Row) -> bool, ops: Meaning)
    requires forall l, r :: l in ls && r in rs ==> (w(l, r) <==> p(l) && q(r) && Matches(conditions, l, r, ops))
    ensures JoinRows(conditions, Selected(ls, p), Selected(rs, q), ops) == CrossWhere(w, ls, rs)
  {
    if ls != [] {
      JoinSelected(conditions, ls[1..], rs, p, q, w, ops);
      SelectedStep(ls, p);
      assert ls[0] in ls;
      if p(ls[0]) {
        MatchesSelected(conditions, ls[0], rs, q, w, ops);
      } else {
        NoPairs(ls[0], rs, w);
        assert CrossWhere(w, ls, rs) == [] + CrossWhere(w, ls[1..], rs);
      }
    }
  }

  lemma {:induction false} BaseRows(p: Plan)
    requires WellFormedPlan(p)
    ensures forall row :: row in Base(p) ==> RowOf(row, Tables(p))
  {
    match p case Get(_, _) => case Filter(_, child) => BaseRows(child);
  }

  lemma {:induction false} SameBase(s: JoinState, e: Expression)
    requires SetCondition(s, e).Some?
    ensures var t := SetCondition(s, e).value; Base(t.left) == Base(s.left) && Base(t.right) == Base(s.right)
    decreases e, 1 + if e.And? then |e.children| else 0
  {
    if e.And? { SameBaseChildren(s, e, 0); }
  }

  lemma {:induction false} SameBaseChildren(s: JoinState, e: Expression, i: nat)
    requires e.And? && i <= |e.children| && SetChildren(s, e, i).Some?
    ensures var t := SetChildren(s, e, i).value; Base(t.left) == Base(s.left) && Base(t.right) == Base(s.right)
    decreases e, |e.children| - i
  {
    if i < |e.children| {
      SameBase(s, e.children[i]);
      SameBaseChildren(SetCondition(s, e.children[i]).value, e, i + 1);
    }
  }

  /** The join gives exactly the pairs of the cross product that pass the filters below it and satisfy the condition, in
      the order of the cross product. */
  lemma JoinMeansTheSame(s: JoinState, e: Expression, ops: Meaning)
    requires WellFormedPlan(s.left) && WellFormedPlan(s.right) && Tables(s.left) !! Tables(s.right) && s.conditions == []
    requires Placeable(e, Tables(s.left), Tables(s.right)) && SetCondition(s, e).Some?
    ensures JoinOutput(SetCondition(s, e).value, ops)
         == CrossWhere((l, r) => PassesPlan(s.left, l, ops) && PassesPlan(s.right, r, ops) && KeptTrue(e, l + r, ops), Base(s.left), Base(s.right))
  {
    var t := SetCondition(s, e).value;
    var w := (l: Row, r: Row) => PassesPlan(s.left, l, ops) && PassesPlan(s.right, r, ops) && KeptTrue(e, l + r, ops);
    SameBase(s, e);
    RowsAreSelected(t.left, ops);
    RowsAreSelected(t.right, ops);
    BaseRows(s.left);
    BaseRows(s.right);
    forall l, r | l in Base(s.left) && r in Base(s.right)
      ensures w(l, r) <==> PassesPlan(t.left, l, ops) && PassesPlan(t.right, r, ops) && Matches(t.conditions, l, r, ops)
    {
      ConditionKept(s, e, l, r, ops);
    }
    JoinSelected(t.conditions, Base(s.left), Base(s.right), l => PassesPlan(t.left, l, ops), r => PassesPlan(t.right, r, ops), w, ops);
  }

  /** For conditions in the grammar, these are the pairs that the condition is true of. */
  lemma GrammaticalJoin(e: Expression, leftTables: set<nat>, leftRows: seq<Row>, rightTables: set<nat>, rightRows: seq<Row>, ops: Meaning)
    requires Grammatical(e) && Placeable(e, leftTables, rightTables) && leftTables !! rightTables
    requires WellFormedPlan(Get(leftTables, leftRows)) && WellFormedPlan(Get(rightTables, rightRows))
    ensures var s := JoinState(Get(leftTables, leftRows), Get(rightTables, rightRows), []);
      && SetCondition(s, e).Some?
      && JoinOutput(SetCondition(s, e).value, ops) == CrossWhere((l, r) => IsTrue(Eval(e, l + r, ops)), leftRows, rightRows)
  {
    var s := JoinState(Get(leftTables, leftRows), Get(rightTables, rightRows), []);
    GrammaticalIsAccepted(s, e);
    JoinMeansTheSame(s, e, ops);
    var w := (l: Row, r: Row) => PassesPlan(s.left, l, ops) && PassesPlan(s.right, r, ops) && KeptTrue(e, l + r, ops);
    forall l: Row, r: Row ensures w(l, r) <==> IsTrue(Eval(e, l + r, ops)) {
      GrammaticalIsKept(e, l + r, ops);
    }
    SameCross(w, (l, r) => IsTrue(Eval(e, l + r, ops)), leftRows, rightRows);
  }

  lemma {:induction false} SamePairs(p: (Row, Row) -> bool, q: (Row, Row) -> bool, l: Row, rs: seq<Row>)
    requires forall r :: p(l, r) <==> q(l, r)
    ensures PairsOf(p, l, rs) == PairsOf(q, l, rs)
  {
    if rs != [] { SamePairs(p, q, l, rs[1..]); }
  }

  lemma {:induction false} SameCross(p: (Row, Row) -> bool, q: (Row, Row) -> bool, ls: seq<Row>, rs: seq<Row>)
    requires forall l, r :: p(l, r) <==> q(l, r)
    ensures CrossWhere(p, ls, rs) == CrossWhere(q, ls, rs)
  {
    if ls != [] {
      SamePairs(p, q, ls[0], rs);
      SameCross(p, q, ls[1..], rs);
    }
  }

  lemma {:induction false} GrammaticalIsAccepted(s: JoinState, e: Expression)
    requires Grammatical(e)
    ensures SetCondition(s, e).Some?
    decreases e, 1 + if e.And? then |e.children| else 0
  {
    if e.And? { ChildrenAccepted(s, e, 0); }
  }

  lemma {:induction false} ChildrenAccepted(s: JoinState, e: Expression, i: nat)
    requires e.And? && i <= |e.children| && forall c :: c in e.children ==> Grammatical(c)
    ensures SetChildren(s, e, i).Some?
    decreases e, |e.children| - i
  {
    if i < |e.children| {
      GrammaticalIsAccepted(s, e.children[i]);
      ChildrenAccepted(SetCondition(s, e.children[i]).value, e, i + 1);
    }
  }

  /** A disjunction is dropped: a.x = 1 OR b.y = 1 lets a pair through that it is false of. */
  lemma DisjunctionIsDropped()
    ensures var x, y := Column(0, 0), Column(1, 0);
      var e := Or([Compare(Equal, ColumnRef(x), Constant(Some(1))), Compare(Equal, ColumnRef(y), Constant(Some(1)))]);
      var l, r: Row := map[x := Some(2)], map[y := Some(2)];
      var s := JoinState(Get({0}, [l]), Get({1}, [r]), []);
      SetCondition(s, e) == Some(s) && JoinOutput(s, Plus) == [(l, r)] && IsFalse(Eval(e, l + r, Plus))
  {
    var x, y := Column(0, 0), Column(1, 0);
    var a, b := Compare(Equal, ColumnRef(x), Constant(Some(1))), Compare(Equal, ColumnRef(y), Constant(Some(1)));
    var e := Or([a, b]);
    var l, r: Row := map[x := Some(2)], map[y := Some(2)];
    assert Eval(a, l + r, Plus) == Some(0) && Eval(b, l + r, Plus) == Some(0);
    var vs := seq(|e.children|, i requires 0 <= i < |e.children| => Eval(e.children[i], l + r, Plus));
    assert Eval(e, l + r, Plus) == Disjunction(vs) && vs[0] == Some(0) && vs[1] == Some(0);
    assert MatchesOf([], l, [r], Plus) == [(l, r)] + MatchesOf([], l, [], Plus);
    assert JoinRows([], [l], [r], Plus) == MatchesOf([], l, [r], Plus) + JoinRows([], [], [r], Plus);
  }

  /** Adds two numbers. */
  function Plus(symbol: nat, vs: seq<Value>): Value {
    if |vs| == 2 && vs[0].Some? && vs[1].Some? then Some(vs[0].value + vs[1].value) else None
  }

  /** A column of the left side plus a constant counts as referring to both sides. */
  lemma SumCountsAsBoth(x: Column, left: set<nat>, right: set<nat>)
    requires x.table in left
    ensures GetJoinSide(left, right, Operator(0, [ColumnRef(x), Constant(Some(1))])) == BOTH
  {
    var sum := Operator(0, [ColumnRef(x), Constant(Some(1))]);
    assert SideOfChildren(left, right, Constant(Some(1)), 0, NONE) == NONE;
    assert GetJoinSide(left, right, Constant(Some(1))) == NONE && GetJoinSide(left, right, ColumnRef(x)) == LEFT;
    assert SideOfChildren(left, right, sum, 2, BOTH) == BOTH;
    assert SideOfChildren(left, right, sum, 1, LEFT) == BOTH;
  }

  /** b.y = a.x + 1: since the sum counts as referring to both sides, the comparison becomes a filter of the right side, which
      does not have a.x. */
  lemma MisplacedComparison(s: JoinState, x: Column, y: Column)
    requires x.table in Tables(s.left) && y.table in Tables(s.right) && Tables(s.left) !! Tables(s.right)
    ensures var sum := Operator(0, [ColumnRef(x), Constant(Some(1))]);
      var e := Compare(Equal, ColumnRef(y), sum);
      && SetCondition(s, e) == Some(s.(right := Filter([e], s.right)))
      && !Placeable(e, Tables(s.left), Tables(s.right)) && !AllContained(SetCondition(s, e).value)
  {
    var sum := Operator(0, [ColumnRef(x), Constant(Some(1))]);
    SumCountsAsBoth(x, Tables(s.left), Tables(s.right));
    assert ColumnRef(x) in sum.children && !RefersTo(sum, Tables(s.right));
    ConditionContained(s, Compare(Equal, ColumnRef(y), sum));
  }

  /** Somewhere along the ANDs of the condition a NOT stands before something else than a comparison. */
  ghost predicate NegatesOther(e: Expression) {
    match e
    case And(children) => exists c :: c in children && NegatesOther(c)
    case Not(child) => !child.Compare?
    case _ => false
  }

  /** A condition is refused exactly then. */
  lemma {:induction false} RefusedExactly(s: JoinState, e: Expression)
    ensures SetCondition(s, e).None? <==> NegatesOther(e)
    decreases e, 1 + if e.And? then |e.children| else 0
  {
    if e.And? {
      ChildrenRefusedExactly(s, e, 0);
      if NegatesOther(e) {
        var c :| c in e.children && NegatesOther(c);
        var j :| 0 <= j < |e.children| && e.children[j] == c;
      }
    }
  }

  lemma {:induction false} ChildrenRefusedExactly(s: JoinState, e: Expression, i: nat)
    requires e.And? && i <= |e.children|
    ensures SetChildren(s, e, i).None? <==> exists j :: i <= j < |e.children| && NegatesOther(e.children[j])
    decreases e, |e.children| - i
  {
    if i < |e.children| {
      RefusedExactly(s, e.children[i]);
      match SetCondition(s, e.children[i])
      case None =>
      case Some(t) => ChildrenRefusedExactly(t, e, i + 1);
    }
  }

  /** A column of neither side, as in a correlated subquery, counts as none, and a comparison with it is a filter of the other
    column's side. */
  lemma OuterColumnIsFiltered(s: JoinState, c: Comparison, z: Column, x: Column)
    requires z.table !in Tables(s.left) + Tables(s.right) && x.table in Tables(s.left) + Tables(s.right)
    ensures GetJoinSide(Tables(s.left), Tables(s.right), ColumnRef(z)) == NONE
    ensures var e := Compare(c, ColumnRef(z), ColumnRef(x));
      SetCondition(s, e)
        == Some(if x.table in Tables(s.left) then s.(left := Filter([e], s.left)) else s.(right := Filter([e], s.right)))
  {
  }

  /** a.x + 1 = a.y: the sum counts as referring to both sides here as well, and the filter of the left side is the right place. */
  lemma PlacedAllTheSame(left: set<nat>, right: set<nat>, x: Column, y: Column)
    requires x.table in left && y.table in left
    ensures var sum := Operator(0, [ColumnRef(x), Constant(Some(1))]);
      GetJoinSide(left, right, sum) == BOTH && Placeable(Compare(Equal, sum, ColumnRef(y)), left, right)
  {
    SumCountsAsBoth(x, left, right);
  }

  // ----- the operations that change the plan -----

  method ComputeJoinSide(left: set<nat>, right: set<nat>, e: Expression) returns (side: JoinSide)
    ensures side == GetJoinSide(left, right, e)
  {
    if e.ColumnRef? {
      if e.column.table in left {
        return LEFT;
      } else if e.column.table in right {
        return RIGHT;
      } else {
        return NONE;
      }
    }
    side := NONE;
    var i := 0;
    while i < |Children(e)|
      invariant 0 <= i <= |Children(e)|
      invariant GetJoinSide(left, right, e) == SideOfChildren(left, right, e, i, side)
    {
      var found := ComputeJoinSide(left, right, Children(e)[i]);
      if found != side {
        side := if side == NONE then found else BOTH;
      }
      i := i + 1;
    }
  }

  class LogicalFilter {
    var expressions: seq<Expression>

    constructor (e: Expression)
      ensures expressions == SplitPredicates(e)
    {
      expressions := [];
      new;
      Split(e);
    }

    method Split(e: Expression)
      modifies this
      ensures expressions == old(expressions) + SplitPredicates(e)
      decreases e
    {
      if e.And? {
        var i := 0;
        while i < |e.children|
          invariant 0 <= i <= |e.children|
          invariant old(expressions) + SplitPredicates(e) == expressions + SplitChildren(e, i)
        {
          Split(e.children[i]);
          i := i + 1;
        }
      } else {
        expressions := expressions + [e];
      }
    }
  }

  class LogicalJoin {
    var left: Plan
    var right: Plan
    var conditions: seq<JoinCondition>

    constructor (left: Plan, right: Plan)
      ensures State() == JoinState(left, right, [])
    {
      this.left, this.right, conditions := left, right, [];
    }

    function State(): JoinState
      reads this
    {
      JoinState(left, right, conditions)
    }

    /** Distributes a condition; false stands for the exception about NOT. */
    method SetJoinCondition(e: Expression) returns (ok: bool)
      modifies this
      ensures ok <==> SetCondition(old(State()), e).Some?
      ensures ok ==> State() == SetCondition(old(State()), e).value
      decreases e, 1
    {
      match e {
        case And(children) =>
          var i := 0;
          while i < |children|
            invariant 0 <= i <= |children|
            invariant SetCondition(old(State()), e) == SetChildren(State(), e, i)
          {
            ok := SetJoinCondition(children[i]);
            if !ok {
              return;
            }
            i := i + 1;
          }
        case Compare(c, l, r) => SetJoinComparison(c, l, r);
        case Not(child) =>
          if !child.Compare? {
            return false;
          }
          SetJoinComparison(Negate(child.comparison), child.left, child.right);
        case _ =>
      }
      ok := true;
    }

    method SetJoinComparison(c: Comparison, l: Expression, r: Expression)
      modifies this
      ensures State() == SetComparison(old(State()), c, l, r)
    {
      var leftSide := ComputeJoinSide(Tables(left), Tables(right), l);
      var rightSide := ComputeJoinSide(Tables(left), Tables(right), r);
      if leftSide == LEFT && rightSide == RIGHT {
        conditions := conditions + [JoinCondition(l, r, c)];
      } else if leftSide == RIGHT && rightSide == LEFT {
        conditions := conditions + [JoinCondition(r, l, Flip(c))];
      } else {
        var filter := new LogicalFilter(Compare(c, l, r));
        if leftSide == LEFT || rightSide == LEFT {
          left := Filter(filter.expressions, left);
        } else {
          right := Filter(filter.expressions, right);
        }
      }
    }
  }
}
