/** Which join conditions lead to a plan whose column references can all be resolved.

  The resolver asserts that it finds the table of every reference among the tables below the expression.  That holds of a
  rewritten join exactly if every comparison of its condition was placed where both operands can be evaluated. */
module JoinBinding {
  import opened Versions
  import opened Join
  import CB = ColumnBinding

  /** The column references of an expression, from left to right. */
  function RefsOf(e: Expression): seq<CB.ColumnRef>
    decreases e, |Children(e)| + 1
  {
    if e.ColumnRef? then [CB.ColumnRef(e.column.table, e.column.index, None)] else RefsOfChildren(e, 0)
  }

  function RefsOfChildren(e: Expression, i: nat): seq<CB.ColumnRef>
    requires i <= |Children(e)|
    decreases e, |Children(e)| - i
  {
    if i == |Children(e)| then [] else RefsOf(Children(e)[i]) + RefsOfChildren(e, i + 1)
  }

  function RefsOfAll(es: seq<Expression>): seq<CB.ColumnRef> {
    if es == [] then [] else RefsOf(es[0]) + RefsOfAll(es[1..])
  }

  ghost predicate AllIn(refs: seq<CB.ColumnRef>, tables: set<nat>) {
    forall r :: r in refs ==> r.table in tables
  }

  lemma {:induction false} RefersIff(e: Expression, tables: set<nat>)
    ensures RefersTo(e, tables) <==> AllIn(RefsOf(e), tables)
    decreases e, |Children(e)| + 1
  {
    if !e.ColumnRef? {
      ChildrenRefer(e, tables);
      ChildrenReferIff(e, tables, 0);
    }
  }

  lemma {:induction false} ChildrenReferIff(e: Expression, tables: set<nat>, i: nat)
    requires i <= |Children(e)|
    ensures (forall k :: i <= k < |Children(e)| ==> RefersTo(Children(e)[k], tables)) <==> AllIn(RefsOfChildren(e, i), tables)
    decreases e, |Children(e)| - i
  {
    if i < |Children(e)| {
      RefersIff(Children(e)[i], tables);
      ChildrenReferIff(e, tables, i + 1);
      AllInBoth(RefsOf(Children(e)[i]), RefsOfChildren(e, i + 1), tables);
    }
  }

  lemma AllInBoth(a: seq<CB.ColumnRef>, b: seq<CB.ColumnRef>, tables: set<nat>)
    ensures AllIn(a + b, tables) <==> AllIn(a, tables) && AllIn(b, tables)
  {
    assert forall r :: r in a + b <==> r in a || r in b;
  }

  // ----- columns that exist -----

  /** How many columns each table has. */
  type Widths = map<nat, nat>

  ghost predicate Exist(refs: seq<CB.ColumnRef>, widths: Widths) {
    forall r :: r in refs ==> r.index.None? && (r.table in widths ==> r.column < widths[r.table])
  }

  ghost predicate ColumnsExist(e: Expression, widths: Widths) { Exist(RefsOf(e), widths) }

  lemma ExistBoth(a: seq<CB.ColumnRef>, b: seq<CB.ColumnRef>, widths: Widths)
    ensures Exist(a + b, widths) <==> Exist(a, widths) && Exist(b, widths)
  {
    assert forall r :: r in a + b <==> r in a || r in b;
  }

  lemma CompareRefs(c: Comparison, a: Expression, b: Expression)
    ensures RefsOf(Compare(c, a, b)) == RefsOf(a) + RefsOf(b)
  {
    var e := Compare(c, a, b);
    assert Children(e) == [a, b] && RefsOfChildren(e, 2) == [];
    assert RefsOfChildren(e, 1) == RefsOf(b) + [];
    assert RefsOfChildren(e, 0) == RefsOf(a) + RefsOfChildren(e, 1);
  }

  ghost predicate PlanColumnsExist(p: Plan, widths: Widths) {
    match p case Get(_, _) => true case Filter(es, child) => PlanColumnsExist(child, widths) && forall e :: e in es ==> ColumnsExist(e, widths)
  }

  ghost predicate AllColumnsExist(s: JoinState, widths: Widths) {
    && PlanColumnsExist(s.left, widths) && PlanColumnsExist(s.right, widths)
    && forall c :: c in s.conditions ==> ColumnsExist(c.left, widths) && ColumnsExist(c.right, widths)
  }

  lemma ComparisonColumnsExist(s: JoinState, c: Comparison, a: Expression, b: Expression, widths: Widths)
    requires AllColumnsExist(s, widths) && ColumnsExist(a, widths) && ColumnsExist(b, widths)
    ensures AllColumnsExist(SetComparison(s, c, a, b), widths)
  {
    CompareRefs(c, a, b);
    ExistBoth(RefsOf(a), RefsOf(b), widths);
    assert SplitPredicates(Compare(c, a, b)) == [Compare(c, a, b)];
  }

  lemma {:induction false} ConditionColumnsExist(s: JoinState, e: Expression, widths: Widths)
    requires AllColumnsExist(s, widths) && ColumnsExist(e, widths) && SetCondition(s, e).Some?
    ensures AllColumnsExist(SetCondition(s, e).value, widths)
    decreases e, 1 + if e.And? then |e.children| else 0
  {
    match e
    case And(_) => ChildrenColumnsExist(s, e, 0, widths);
    case Compare(c, a, b) =>
      CompareRefs(c, a, b);
      ExistBoth(RefsOf(a), RefsOf(b), widths);
      ComparisonColumnsExist(s, c, a, b, widths);
    case Not(child) =>
      assert Children(e) == [child] && RefsOfChildren(e, 1) == [] && RefsOf(e) == RefsOf(child) + [];
      CompareRefs(child.comparison, child.left, child.right);
      ExistBoth(RefsOf(child.left), RefsOf(child.right), widths);
      ComparisonColumnsExist(s, Negate(child.comparison), child.left, child.right, widths);
    case _ =>
  }

  lemma {:induction false} ChildrenColumnsExist(s: JoinState, e: Expression, i: nat, widths: Widths)
    requires e.And? && i <= |e.children| && AllColumnsExist(s, widths) && Exist(RefsOfChildren(e, i), widths) && SetChildren(s, e, i).Some?
    ensures AllColumnsExist(SetChildren(s, e, i).value, widths)
    decreases e, |e.children| - i
  {
    if i < |e.children| {
      ExistBoth(RefsOf(e.children[i]), RefsOfChildren(e, i + 1), widths);
      ConditionColumnsExist(s, e.children[i], widths);
      ChildrenColumnsExist(SetCondition(s, e.children[i]).value, e, i + 1, widths);
    }
  }

  // ----- the plan for the resolver -----

  ghost function TablesIn(gets: seq<(nat, nat)>): set<nat> { set i | 0 <= i < |gets| :: gets[i].0 }

  /** The tables at the bottom of a plan are as wide as they should be. */
  ghost predicate Wide(gets: seq<(nat, nat)>, widths: Widths) {
    forall i :: 0 <= i < |gets| ==> gets[i].0 in widths && widths[gets[i].0] == gets[i].1
  }

  lemma BoundIff(refs: seq<CB.ColumnRef>, gets: seq<(nat, nat)>, widths: Widths)
    requires Wide(gets, widths) && Exist(refs, widths)
    ensures CB.AllBound(gets, refs) <==> AllIn(refs, TablesIn(gets))
  {
    forall i | 0 <= i < |refs| ensures CB.Bound(gets, refs[i]) <==> refs[i].table in TablesIn(gets) {
      assert refs[i] in refs;
      var k := CB.Find(gets, refs[i].table);
      if k < |gets| { assert gets[k].0 == refs[i].table; }
    }
    if CB.AllBound(gets, refs) {
      forall r | r in refs ensures r.table in TablesIn(gets) { var i :| 0 <= i < |refs| && refs[i] == r; }
    }
  }

  /** The plan as the resolver sees it, over the plan of the tables at its bottom. */
  ghost function BindingPlan(p: Plan, bottom: CB.Plan): CB.Plan {
    match p case Get(_, _) => bottom case Filter(es, child) => CB.Filter(RefsOfAll(es), BindingPlan(child, bottom))
  }

  ghost function LeftRefs(conditions: seq<JoinCondition>): seq<CB.ColumnRef> {
    if conditions == [] then [] else RefsOf(conditions[0].left) + LeftRefs(conditions[1..])
  }

  ghost function RightRefs(conditions: seq<JoinCondition>): seq<CB.ColumnRef> {
    if conditions == [] then [] else RefsOf(conditions[0].right) + RightRefs(conditions[1..])
  }

  /** Without conditions between its sides a join becomes a cross product. */
  ghost function BindingJoin(s: JoinState, left: CB.Plan, right: CB.Plan): CB.Plan {
    if s.conditions == [] then CB.CrossProduct(BindingPlan(s.left, left), BindingPlan(s.right, right))
    else CB.Join(BindingPlan(s.left, left), BindingPlan(s.right, right), LeftRefs(s.conditions), RightRefs(s.conditions))
  }

  lemma {:induction false} RefsOfAllIn(es: seq<Expression>, tables: set<nat>, widths: Widths)
    ensures AllIn(RefsOfAll(es), tables) <==> forall e :: e in es ==> RefersTo(e, tables)
    ensures (forall e :: e in es ==> ColumnsExist(e, widths)) ==> Exist(RefsOfAll(es), widths)
  {
    if es != [] {
      RefsOfAllIn(es[1..], tables, widths);
      RefersIff(es[0], tables);
      AllInBoth(RefsOf(es[0]), RefsOfAll(es[1..]), tables);
      ExistBoth(RefsOf(es[0]), RefsOfAll(es[1..]), widths);
      assert forall e :: e in es <==> e == es[0] || e in es[1..];
      if forall e :: e in es ==> ColumnsExist(e, widths) { assert ColumnsExist(es[0], widths); }
    }
  }

  lemma {:induction false} ConditionRefsIn(conditions: seq<JoinCondition>, left: set<nat>, right: set<nat>, widths: Widths)
    requires forall c :: c in conditions ==> ColumnsExist(c.left, widths) && ColumnsExist(c.right, widths)
    ensures AllIn(LeftRefs(conditions), left) && AllIn(RightRefs(conditions), right) <==> ConditionsContained(conditions, left, right)
    ensures Exist(LeftRefs(conditions), widths) && Exist(RightRefs(conditions), widths)
  {
    if conditions != [] {
      var c, rest := conditions[0], conditions[1..];
      ConditionRefsIn(rest, left, right, widths);
      RefersIff(c.left, left);
      RefersIff(c.right, right);
      AllInBoth(RefsOf(c.left), LeftRefs(rest), left);
      AllInBoth(RefsOf(c.right), RightRefs(rest), right);
      ExistBoth(RefsOf(c.left), LeftRefs(rest), widths);
      ExistBoth(RefsOf(c.right), RightRefs(rest), widths);
      assert forall d :: d in conditions <==> d == c || d in rest;
    }
  }

  lemma {:induction false} PlanResolvable(p: Plan, bottom: CB.Plan, widths: Widths)
    requires TablesIn(CB.Gets(bottom)) == Tables(p) && Wide(CB.Gets(bottom), widths) && CB.Resolvable(bottom) && PlanColumnsExist(p, widths)
    ensures CB.Gets(BindingPlan(p, bottom)) == CB.Gets(bottom)
    ensures CB.Resolvable(BindingPlan(p, bottom)) <==> Contained(p)
  {
    match p
    case Get(_, _) =>
    case Filter(es, child) =>
      PlanResolvable(child, bottom, widths);
      RefsOfAllIn(es, Tables(child), widths);
      BoundIff(RefsOfAll(es), CB.Gets(bottom), widths);
  }

  lemma JoinResolvable(s: JoinState, left: CB.Plan, right: CB.Plan, widths: Widths)
    requires TablesIn(CB.Gets(left)) == Tables(s.left) && Wide(CB.Gets(left), widths) && CB.Resolvable(left)
    requires TablesIn(CB.Gets(right)) == Tables(s.right) && Wide(CB.Gets(right), widths) && CB.Resolvable(right)
    requires AllColumnsExist(s, widths)
    ensures CB.Resolvable(BindingJoin(s, left, right)) <==> AllContained(s)
  {
    PlanResolvable(s.left, left, widths);
    PlanResolvable(s.right, right, widths);
    ConditionRefsIn(s.conditions, Tables(s.left), Tables(s.right), widths);
    BoundIff(LeftRefs(s.conditions), CB.Gets(left), widths);
    BoundIff(RightRefs(s.conditions), CB.Gets(right), widths);
  }

  /** Rewriting a condition of existing columns gives a plan that can be resolved, exactly if the condition's comparisons all
      land where both their operands can be evaluated. */
  lemma ResolvableIffPlaceable(s: JoinState, e: Expression, left: CB.Plan, right: CB.Plan, widths: Widths)
    requires TablesIn(CB.Gets(left)) == Tables(s.left) && Wide(CB.Gets(left), widths) && CB.Resolvable(left)
    requires TablesIn(CB.Gets(right)) == Tables(s.right) && Wide(CB.Gets(right), widths) && CB.Resolvable(right)
    requires AllColumnsExist(s, widths) && AllContained(s) && ColumnsExist(e, widths) && SetCondition(s, e).Some?
    ensures CB.Resolvable(BindingJoin(SetCondition(s, e).value, left, right)) <==> Placeable(e, Tables(s.left), Tables(s.right))
  {
    ConditionContained(s, e);
    ConditionColumnsExist(s, e, widths);
    JoinResolvable(SetCondition(s, e).value, left, right, widths);
  }
}
