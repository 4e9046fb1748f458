/** ORDER BY: comparing rows by several keys, and sorting a vector of row numbers in place. */
module Order {
  import opened Versions

  /** The sort keys of a row; none of them is NULL. */
  type Keys = seq<int>

  datatype OrderType = ASCENDING | DESCENDING

  /** The sign of the comparison at the first key that differs. */
  function Compare(orders: seq<OrderType>, x: Keys, y: Keys): (c: int)
    requires |x| == |y| == |orders|
    ensures -1 <= c <= 1
  {
    if orders == [] then 0
    else if x[0] == y[0] then Compare(orders[1..], x[1..], y[1..])
    else if x[0] < y[0] then (if orders[0] == ASCENDING then -1 else 1)
    else (if orders[0] == ASCENDING then 1 else -1)
  }

  ghost predicate Table(rows: seq<Keys>, orders: seq<OrderType>) {
    forall i :: 0 <= i < |rows| ==> |rows[i]| == |orders|
  }

  method CompareTuple(rows: seq<Keys>, orders: seq<OrderType>, left: nat, right: nat) returns (c: int)
    requires Table(rows, orders) && left < |rows| && right < |rows|
    ensures c == Compare(orders, rows[left], rows[right])
  {
    var x, y := rows[left], rows[right];
    var i := 0;
    while i < |orders|
      invariant 0 <= i <= |orders|
      invariant Compare(orders, x, y) == Compare(orders[i..], x[i..], y[i..])
    {
      if x[i] != y[i] {
        return if x[i] < y[i] then (if orders[i] == ASCENDING then -1 else 1) else (if orders[i] == ASCENDING then 1 else -1);
      }
      assert orders[i..][1..] == orders[i + 1..] && x[i..][1..] == x[i + 1..] && y[i..][1..] == y[i + 1..];
      i := i + 1;
    }
    return 0;
  }

  lemma {:induction false} CompareMirrors(orders: seq<OrderType>, x: Keys, y: Keys)
    requires |x| == |y| == |orders|
    ensures Compare(orders, x, y) == -Compare(orders, y, x)
    ensures Compare(orders, x, y) == 0 <==> x == y
  {
    if orders != [] && x[0] == y[0] {
      CompareMirrors(orders[1..], x[1..], y[1..]);
      assert x == [x[0]] + x[1..] && y == [y[0]] + y[1..];
    }
  }

  lemma {:induction false} CompareTransitive(orders: seq<OrderType>, x: Keys, y: Keys, z: Keys)
    requires |x| == |y| == |z| == |orders|
    requires Compare(orders, x, y) <= 0 && Compare(orders, y, z) <= 0
    ensures Compare(orders, x, z) <= 0
    ensures Compare(orders, x, y) < 0 || Compare(orders, y, z) < 0 ==> Compare(orders, x, z) < 0
  {
    if orders != [] && x[0] == y[0] == z[0] {
      CompareTransitive(orders[1..], x[1..], y[1..], z[1..]);
    }
  }

  /** The first keys that differ decide, each in its own direction. */
  lemma {:induction false} CompareIsLexicographic(orders: seq<OrderType>, x: Keys, y: Keys, k: nat)
    requires |x| == |y| == |orders| && k < |orders| && x[..k] == y[..k] && x[k] != y[k]
    ensures Compare(orders, x, y) < 0 <==> (if orders[k] == ASCENDING then x[k] < y[k] else y[k] < x[k])
  {
    if k > 0 {
      assert x[0] == x[..k][0] && y[0] == y[..k][0];
      assert x[1..][..k - 1] == x[..k][1..] && y[1..][..k - 1] == y[..k][1..];
      CompareIsLexicographic(orders[1..], x[1..], y[1..], k - 1);
    }
  }

  // ----- sorting -----

  function CompareRows(rows: seq<Keys>, orders: seq<OrderType>, left: nat, right: nat): int
    requires Table(rows, orders) && left < |rows| && right < |rows|
  {
    Compare(orders, rows[left], rows[right])
  }

  ghost predicate RowNumbers(rows: seq<Keys>, a: seq<nat>) {
    forall k :: 0 <= k < |a| ==> a[k] < |rows|
  }

  /** Strictly after the one bound, and not after the other. */
  ghost predicate Within(rows: seq<Keys>, orders: seq<OrderType>, e: nat, low: Option<nat>, high: Option<nat>)
    requires Table(rows, orders)
  {
    && e < |rows|
    && (low.Some? ==> low.value < |rows| && CompareRows(rows, orders, e, low.value) > 0)
    && (high.Some? ==> high.value < |rows| && CompareRows(rows, orders, e, high.value) <= 0)
  }

  /** The entries from one position up to another are within the bounds. */
  ghost predicate Span(rows: seq<Keys>, orders: seq<OrderType>, a: seq<nat>, from: int, to: int, low: Option<nat>, high: Option<nat>)
    requires Table(rows, orders) && 0 <= from && to <= |a|
  {
    forall k :: from <= k < to ==> Within(rows, orders, a[k], low, high)
  }

  ghost predicate InOrder(rows: seq<Keys>, orders: seq<OrderType>, left: nat, right: nat)
    requires Table(rows, orders)
  {
    left < |rows| && right < |rows| && CompareRows(rows, orders, left, right) <= 0
  }

  ghost predicate Sorted(rows: seq<Keys>, orders: seq<OrderType>, a: seq<nat>, from: int, to: int)
    requires Table(rows, orders) && 0 <= from && to <= |a|
  {
    forall i, j :: from <= i < j < to ==> InOrder(rows, orders, a[i], a[j])
  }

  lemma OrderOfRows(rows: seq<Keys>, orders: seq<OrderType>, x: nat, y: nat, z: nat)
    requires Table(rows, orders) && x < |rows| && y < |rows| && z < |rows|
    ensures CompareRows(rows, orders, x, y) == -CompareRows(rows, orders, y, x)
    ensures CompareRows(rows, orders, x, y) <= 0 && CompareRows(rows, orders, y, z) <= 0 ==> CompareRows(rows, orders, x, z) <= 0
  {
    CompareMirrors(orders, rows[x], rows[y]);
    if CompareRows(rows, orders, x, y) <= 0 && CompareRows(rows, orders, y, z) <= 0 {
      CompareTransitive(orders, rows[x], rows[y], rows[z]);
    }
  }

  /** A row not after the pivot and a row after it are in order. */
  lemma Around(rows: seq<Keys>, orders: seq<OrderType>, x: nat, p: nat, y: nat)
    requires Table(rows, orders) && Within(rows, orders, x, None, Some(p)) && Within(rows, orders, y, Some(p), None)
    ensures InOrder(rows, orders, x, y) && InOrder(rows, orders, p, y)
  {
    OrderOfRows(rows, orders, y, p, p);
    OrderOfRows(rows, orders, x, p, y);
  }

  lemma Widen(rows: seq<Keys>, orders: seq<OrderType>, e: nat, p: nat, low: Option<nat>, high: Option<nat>)
    requires Table(rows, orders) && Within(rows, orders, p, low, high)
    ensures Within(rows, orders, e, low, Some(p)) ==> Within(rows, orders, e, low, high)
    ensures Within(rows, orders, e, Some(p), high) ==> Within(rows, orders, e, low, high)
  {
    if e < |rows| && high.Some? { OrderOfRows(rows, orders, e, p, high.value); }
    if e < |rows| && low.Some? {
      OrderOfRows(rows, orders, e, p, low.value);
      OrderOfRows(rows, orders, e, low.value, p);
      OrderOfRows(rows, orders, p, low.value, e);
    }
  }

  /** Only the entries from left to right may differ, and they are a permutation. */
  ghost predicate Reordered(was: seq<nat>, now: seq<nat>, left: int, right: int) {
    && |now| == |was| && multiset(now) == multiset(was)
    && forall k :: 0 <= k < |was| && !(left <= k <= right) ==> now[k] == was[k]
  }

  // ----- partition -----

  function Swapped(s: seq<nat>, i: nat, j: nat): (t: seq<nat>)
    requires i < |s| && j < |s|
    ensures |t| == |s| && t[i] == s[j] && t[j] == s[i] && forall k :: 0 <= k < |s| && k != i && k != j ==> t[k] == s[k]
  {
    s[i := s[j]][j := s[i]]
  }

  lemma SwapPermutes(s: seq<nat>, i: nat, j: nat)
    requires i < |s| && j < |s|
    ensures multiset(Swapped(s, i, j)) == multiset(s)
  {
  }

  method Swap(a: array<nat>, i: nat, j: nat)
    requires i < a.Length && j < a.Length
    modifies a
    ensures a[..] == Swapped(old(a[..]), i, j)
  {
    a[i], a[j] := a[j], a[i];
  }

  /** The first row from the left that comes after the pivot. */
  method ScanUp(rows: seq<Keys>, orders: seq<OrderType>, a: array<nat>, left: int, right: int, pivot: nat) returns (i: int)
    requires Table(rows, orders) && 0 <= left <= right < a.Length && pivot < |rows|
    requires Span(rows, orders, a[..], left, right + 1, None, None)
    ensures left <= i <= right + 1 && Span(rows, orders, a[..], left, i, None, Some(pivot))
    ensures i <= right ==> Within(rows, orders, a[i], Some(pivot), None)
  {
    i := left;
    while i <= right && CompareRows(rows, orders, a[i], pivot) <= 0
      invariant left <= i <= right + 1 && Span(rows, orders, a[..], left, i, None, Some(pivot))
      invariant i <= right ==> Within(rows, orders, a[i], None, None)
    {
      i := i + 1;
      assert i <= right ==> Within(rows, orders, a[..][i], None, None);
    }
  }

  /** The first row from the right that does not come after the pivot. */
  method ScanDown(rows: seq<Keys>, orders: seq<OrderType>, a: array<nat>, left: int, right: int, pivot: nat) returns (j: int)
    requires Table(rows, orders) && 0 <= left <= right + 1 <= a.Length && pivot < |rows|
    requires Span(rows, orders, a[..], left, right + 1, None, None)
    ensures left - 1 <= j <= right && Span(rows, orders, a[..], j + 1, right + 1, Some(pivot), None)
    ensures left <= j ==> Within(rows, orders, a[j], None, Some(pivot))
  {
    j := right;
    while left <= j && CompareRows(rows, orders, a[j], pivot) > 0
      invariant left - 1 <= j <= right && Span(rows, orders, a[..], j + 1, right + 1, Some(pivot), None)
      invariant left <= j ==> Within(rows, orders, a[j], None, None)
    {
      j := j - 1;
      assert left <= j ==> Within(rows, orders, a[..][j], None, None);
    }
  }

  /** The pivot is at the left end, the rows before i are not after it, the rows behind j are. */
  ghost predicate PartingNow(rows: seq<Keys>, orders: seq<OrderType>, was: seq<nat>, now: seq<nat>, left: int, right: int,
                             pivot: nat, i: int, j: int, low: Option<nat>, high: Option<nat>)
    requires Table(rows, orders)
  {
    && 0 <= left < i <= j + 1 <= right + 1 <= |was| && Reordered(was, now, left, right)
    && now[left] == pivot && Span(rows, orders, now, left, right + 1, low, high)
    && Span(rows, orders, now, left + 1, i, None, Some(pivot)) && Span(rows, orders, now, j + 1, right + 1, Some(pivot), None)
  }

  /** PartingNow, closed. */
  ghost predicate Parting(rows: seq<Keys>, orders: seq<OrderType>, was: seq<nat>, now: seq<nat>, left: int, right: int,
                          pivot: nat, i: int, j: int, low: Option<nat>, high: Option<nat>, n: nat := CLOSED)
    requires Table(rows, orders)
    decreases |was|, n
  {
    if n == 0 then PartingNow(rows, orders, was, now, left, right, pivot, i, j, low, high)
    else Parting(rows, orders, was, now, left, right, pivot, i, j, low, high, n - 1)
  }

  lemma {:induction false} OpenParting(rows: seq<Keys>, orders: seq<OrderType>, was: seq<nat>, now: seq<nat>, left: int, right: int,
                                       pivot: nat, i: int, j: int, low: Option<nat>, high: Option<nat>, n: nat := CLOSED)
    requires Table(rows, orders)
    ensures Parting(rows, orders, was, now, left, right, pivot, i, j, low, high, n)
      <==> PartingNow(rows, orders, was, now, left, right, pivot, i, j, low, high)
    decreases n
  {
    if n > 0 { OpenParting(rows, orders, was, now, left, right, pivot, i, j, low, high, n - 1); }
  }

  lemma PartingBegins(rows: seq<Keys>, orders: seq<OrderType>, was: seq<nat>, left: int, right: int, middle: nat, low: Option<nat>, high: Option<nat>)
    requires Table(rows, orders) && 0 <= left <= middle <= right < |was| && left < right
    requires Span(rows, orders, was, left, right + 1, low, high)
    ensures Parting(rows, orders, was, Swapped(was, middle, left), left, right, was[middle], left + 1, right, low, high)
  {
    SwapPermutes(was, middle, left);
    OpenParting(rows, orders, was, Swapped(was, middle, left), left, right, was[middle], left + 1, right, low, high);
  }

  /** After both scans. */
  lemma PartingScanned(rows: seq<Keys>, orders: seq<OrderType>, was: seq<nat>, now: seq<nat>, left: int, right: int,
                       pivot: nat, i: int, j: int, i': int, j': int, low: Option<nat>, high: Option<nat>)
    requires Table(rows, orders) && Parting(rows, orders, was, now, left, right, pivot, i, j, low, high)
    requires i <= i' <= j' + 1 <= j + 1 <= right + 1 <= |now| && 0 <= i
    requires Span(rows, orders, now, i, i', None, Some(pivot)) && Span(rows, orders, now, j' + 1, j + 1, Some(pivot), None)
    ensures Parting(rows, orders, was, now, left, right, pivot, i', j', low, high)
  {
    OpenParting(rows, orders, was, now, left, right, pivot, i, j, low, high);
    OpenParting(rows, orders, was, now, left, right, pivot, i', j', low, high);
  }

  lemma PartingSwapped(rows: seq<Keys>, orders: seq<OrderType>, was: seq<nat>, now: seq<nat>, left: int, right: int,
                       pivot: nat, i: int, j: int, low: Option<nat>, high: Option<nat>)
    requires Table(rows, orders) && Parting(rows, orders, was, now, left, right, pivot, i, j, low, high) && 0 <= i < j < |now|
    ensures Parting(rows, orders, was, Swapped(now, i, j), left, right, pivot, i, j, low, high)
  {
    OpenParting(rows, orders, was, now, left, right, pivot, i, j, low, high);
    OpenParting(rows, orders, was, Swapped(now, i, j), left, right, pivot, i, j, low, high);
    SwapPermutes(now, i, j);
  }

  lemma PartingEnds(rows: seq<Keys>, orders: seq<OrderType>, was: seq<nat>, now: seq<nat>, left: int, right: int,
                    pivot: nat, i: int, j: int, low: Option<nat>, high: Option<nat>)
    requires Table(rows, orders) && Parting(rows, orders, was, now, left, right, pivot, i, j, low, high) && j < i
    ensures 0 <= left < i <= right + 1 <= |now|
    ensures Parted(rows, orders, was, Swapped(now, i - 1, left), left, right, i - 1, low, high)
  {
    OpenParting(rows, orders, was, now, left, right, pivot, i, j, low, high);
    SwapPermutes(now, i - 1, left);
    EndsBefore(rows, orders, was, now, left, right, pivot, i, j, low, high);
    EndsBehind(rows, orders, was, now, left, right, pivot, i, j, low, high);
    assert Within(rows, orders, now[left], low, high);
  }

  lemma EndsBefore(rows: seq<Keys>, orders: seq<OrderType>, was: seq<nat>, now: seq<nat>, left: int, right: int,
                   pivot: nat, i: int, j: int, low: Option<nat>, high: Option<nat>)
    requires Table(rows, orders) && PartingNow(rows, orders, was, now, left, right, pivot, i, j, low, high) && j < i
    ensures Span(rows, orders, Swapped(now, i - 1, left), left, i - 1, low, Some(pivot))
  {
    var part, next := i - 1, Swapped(now, i - 1, left);
    forall k | left <= k < part ensures Within(rows, orders, next[k], low, Some(pivot)) {
      var m := if k == left then part else k;
      assert next[k] == now[m] && Within(rows, orders, now[m], low, high) && Within(rows, orders, now[m], None, Some(pivot));
    }
  }

  lemma EndsBehind(rows: seq<Keys>, orders: seq<OrderType>, was: seq<nat>, now: seq<nat>, left: int, right: int,
                   pivot: nat, i: int, j: int, low: Option<nat>, high: Option<nat>)
    requires Table(rows, orders) && PartingNow(rows, orders, was, now, left, right, pivot, i, j, low, high) && j < i
    ensures Span(rows, orders, Swapped(now, i - 1, left), i, right + 1, Some(pivot), high)
  {
    var next := Swapped(now, i - 1, left);
    forall k | i <= k < right + 1 ensures Within(rows, orders, next[k], Some(pivot), high) {
      assert next[k] == now[k] && Within(rows, orders, now[k], low, high) && Within(rows, orders, now[k], Some(pivot), None);
    }
  }

  /** The rows before the part's position are not after the row there, and the rows behind it are. */
  ghost predicate Parted(rows: seq<Keys>, orders: seq<OrderType>, was: seq<nat>, now: seq<nat>, left: int, right: int,
                         part: int, low: Option<nat>, high: Option<nat>)
    requires Table(rows, orders)
  {
    && 0 <= left <= part <= right < |was| && Reordered(was, now, left, right) && Within(rows, orders, now[part], low, high)
    && Span(rows, orders, now, left, part, low, Some(now[part])) && Span(rows, orders, now, part + 1, right + 1, Some(now[part]), high)
  }

  lemma PartingRows(rows: seq<Keys>, orders: seq<OrderType>, was: seq<nat>, now: seq<nat>, left: int, right: int,
                    pivot: nat, i: int, j: int, low: Option<nat>, high: Option<nat>)
    requires Table(rows, orders) && Parting(rows, orders, was, now, left, right, pivot, i, j, low, high)
    ensures 0 <= left < i <= j + 1 <= right + 1 <= |was| == |now| && pivot < |rows| && Span(rows, orders, now, left, right + 1, None, None)
  {
    OpenParting(rows, orders, was, now, left, right, pivot, i, j, low, high);
    assert Within(rows, orders, now[left], low, high);
  }

  ghost predicate IsAfter(rows: seq<Keys>, orders: seq<OrderType>, row: nat, pivot: nat)
    requires Table(rows, orders)
  {
    Within(rows, orders, row, Some(pivot), None)
  }

  /** Both scans, and a swap if they have not met. */
  method PartitionStep(rows: seq<Keys>, orders: seq<OrderType>, a: array<nat>, ghost was: seq<nat>, ghost left: int, ghost right: int,
                       pivot: nat, i: int, j: int, ghost low: Option<nat>, ghost high: Option<nat>) returns (i': int, j': int)
    requires Table(rows, orders) && Parting(rows, orders, was, a[..], left, right, pivot, i, j, low, high) && 0 <= i <= j < a.Length
    modifies a
    ensures Parting(rows, orders, was, a[..], left, right, pivot, i', j', low, high) && i <= i' && j' <= j
    ensures 0 <= i' && j' < a.Length
    ensures i' == i && j' == j ==> old(IsAfter(rows, orders, a[i], pivot)) && !IsAfter(rows, orders, a[i], pivot)
  {
    PartingRows(rows, orders, was, a[..], left, right, pivot, i, j, low, high);
    i' := ScanUp(rows, orders, a, i, j, pivot);
    j' := ScanDown(rows, orders, a, i', j, pivot);
    PartingScanned(rows, orders, was, a[..], left, right, pivot, i, j, i', j', low, high);
    if i' < j' {
      PartingSwapped(rows, orders, was, a[..], left, right, pivot, i', j', low, high);
      Swap(a, i', j');
    }
  }

  /** The pivot goes to the left end. */
  method TakePivot(rows: seq<Keys>, orders: seq<OrderType>, a: array<nat>, left: int, ghost right: int, middle: int, ghost low: Option<nat>, ghost high: Option<nat>)
    requires Table(rows, orders) && 0 <= left <= middle <= right < a.Length && left < right
    requires Span(rows, orders, a[..], left, right + 1, low, high)
    modifies a
    ensures Parting(rows, orders, old(a[..]), a[..], left, right, old(a[middle]), left + 1, right, low, high)
  {
    PartingBegins(rows, orders, a[..], left, right, middle, low, high);
    Swap(a, middle, left);
  }

  /** The pivot goes between the two parts. */
  method PlacePivot(rows: seq<Keys>, orders: seq<OrderType>, a: array<nat>, ghost was: seq<nat>, left: int, ghost right: int,
                    ghost pivot: nat, i: int, ghost j: int, ghost low: Option<nat>, ghost high: Option<nat>) returns (part: int)
    requires Table(rows, orders) && Parting(rows, orders, was, a[..], left, right, pivot, i, j, low, high) && j < i
    modifies a
    ensures Parted(rows, orders, was, a[..], left, right, part, low, high)
  {
    PartingEnds(rows, orders, was, a[..], left, right, pivot, i, j, low, high);
    Swap(a, i - 1, left);
    part := i - 1;
  }

  /** Moves the rows not after the pivot to the front, the pivot behind them, and the others to the back. */
  method Partition(rows: seq<Keys>, orders: seq<OrderType>, a: array<nat>, left: int, right: int, ghost low: Option<nat>, ghost high: Option<nat>)
      returns (part: int)
    requires Table(rows, orders) && 0 <= left < right < a.Length
    requires Span(rows, orders, a[..], left, right + 1, low, high)
    modifies a
    ensures Parted(rows, orders, old(a[..]), a[..], left, right, part, low, high)
  {
    ghost var was := a[..];
    var middle := left + (right - left) / 2;
    var pivot := a[middle];
    var i, j := left + 1, right;
    TakePivot(rows, orders, a, left, right, middle, low, high);
    while i <= j
      invariant Parting(rows, orders, was, a[..], left, right, pivot, i, j, low, high)
      invariant 0 <= i && j < a.Length
      decreases j - i, i <= j && IsAfter(rows, orders, a[i], pivot)
    {
      i, j := PartitionStep(rows, orders, a, was, left, right, pivot, i, j, low, high);
    }
    part := PlacePivot(rows, orders, a, was, left, right, pivot, i, j, low, high);
  }

  // ----- sorting a part -----

  ghost predicate PartSorted(rows: seq<Keys>, orders: seq<OrderType>, was: seq<nat>, now: seq<nat>, left: int, right: int,
                             low: Option<nat>, high: Option<nat>)
    requires Table(rows, orders)
  {
    && 0 <= left <= right + 1 <= |was| && Reordered(was, now, left, right)
    && Span(rows, orders, now, left, right + 1, low, high) && Sorted(rows, orders, now, left, right + 1)
  }

  method QuicksortInplace(rows: seq<Keys>, orders: seq<OrderType>, a: array<nat>, left: int, right: int, ghost low: Option<nat>, ghost high: Option<nat>)
    requires Table(rows, orders) && 0 <= left <= right + 1 <= a.Length
    requires Span(rows, orders, a[..], left, right + 1, low, high)
    modifies a
    ensures PartSorted(rows, orders, old(a[..]), a[..], left, right, low, high)
    decreases right - left
  {
    if left >= right {
      return;
    }
    ghost var was := a[..];
    var part := Partition(rows, orders, a, left, right, low, high);
    ghost var pivot, split := a[part], a[..];
    QuicksortInplace(rows, orders, a, left, part - 1, low, Some(pivot));
    ghost var half := a[..];
    OtherPartKept(rows, orders, was, split, half, left, part, right, low, high);
    QuicksortInplace(rows, orders, a, part + 1, right, Some(pivot), high);
    PartsSorted(rows, orders, was, split, half, a[..], left, part, right, low, high);
  }

  lemma OtherPartKept(rows: seq<Keys>, orders: seq<OrderType>, was: seq<nat>, split: seq<nat>, half: seq<nat>,
                      left: int, part: int, right: int, low: Option<nat>, high: Option<nat>)
    requires Table(rows, orders) && Parted(rows, orders, was, split, left, right, part, low, high)
    requires PartSorted(rows, orders, split, half, left, part - 1, low, Some(split[part]))
    ensures |half| == |was| && half[part] == split[part] && Span(rows, orders, half, part + 1, right + 1, Some(split[part]), high)
  {
  }

  /** Two sorted parts around the pivot make a sorted whole. */
  lemma PartsSorted(rows: seq<Keys>, orders: seq<OrderType>, was: seq<nat>, split: seq<nat>, half: seq<nat>, now: seq<nat>,
                    left: int, part: int, right: int, low: Option<nat>, high: Option<nat>)
    requires Table(rows, orders) && Parted(rows, orders, was, split, left, right, part, low, high)
    requires PartSorted(rows, orders, split, half, left, part - 1, low, Some(split[part]))
    requires PartSorted(rows, orders, half, now, part + 1, right, Some(split[part]), high)
    ensures PartSorted(rows, orders, was, now, left, right, low, high)
  {
    var p := split[part];
    assert now[part] == half[part] == p;
    forall k | left <= k < right + 1 ensures Within(rows, orders, now[k], low, high) {
      if k < part { assert now[k] == half[k] && Within(rows, orders, half[k], low, Some(p)); }
      Widen(rows, orders, now[k], p, low, high);
    }
    forall i, j | left <= i < j < right + 1 ensures InOrder(rows, orders, now[i], now[j]) {
      if j <= part {
        assert now[i] == half[i] && now[j] == half[j];
        assert Within(rows, orders, half[i], low, Some(p));
      } else if i <= part {
        assert Within(rows, orders, now[j], Some(p), high);
        assert i < part ==> now[i] == half[i] && Within(rows, orders, half[i], low, Some(p));
        OrderOfRows(rows, orders, p, p, p);
        Around(rows, orders, now[i], p, now[j]);
      }
    }
  }

  // ----- the whole sort -----

  function Numbers(n: nat): (s: seq<nat>)
    ensures |s| == n && forall i :: 0 <= i < n ==> s[i] == i
  {
    seq(n, i requires 0 <= i < n => i)
  }

  /** The rows before row i have been distributed. */
  ghost predicate Distributed(front: seq<nat>, back: seq<nat>, i: nat) {
    multiset(front) + multiset(back) + multiset{0} == multiset(Numbers(i))
  }

  lemma DistributeOne(front: seq<nat>, back: seq<nat>, i: nat)
    requires Distributed(front, back, i)
    ensures Distributed(front + [i], back, i + 1) && Distributed(front, [i] + back, i + 1)
  {
    assert Numbers(i + 1) == Numbers(i) + [i];
  }

  lemma DistributedAll(a: seq<nat>, front: seq<nat>, back: seq<nat>, n: nat)
    requires Distributed(front, back, n) && a == front + [0] + back
    ensures multiset(a) == multiset(Numbers(n))
  {
  }

  /** The front holds rows not after row 0, the back the others, and together the rows before row i but row 0. */
  ghost predicate SplitNow(rows: seq<Keys>, orders: seq<OrderType>, front: seq<nat>, back: seq<nat>, i: nat)
    requires Table(rows, orders)
  {
    && Distributed(front, back, i)
    && (forall k :: 0 <= k < |front| ==> Within(rows, orders, front[k], None, Some(0)))
    && (forall k :: 0 <= k < |back| ==> Within(rows, orders, back[k], Some(0), None))
  }

  /** SplitNow, closed. */
  ghost predicate Split(rows: seq<Keys>, orders: seq<OrderType>, front: seq<nat>, back: seq<nat>, i: nat, n: nat := CLOSED)
    requires Table(rows, orders)
    decreases |front|, n
  {
    if n == 0 then SplitNow(rows, orders, front, back, i) else Split(rows, orders, front, back, i, n - 1)
  }

  lemma {:induction false} OpenSplit(rows: seq<Keys>, orders: seq<OrderType>, front: seq<nat>, back: seq<nat>, i: nat, n: nat := CLOSED)
    requires Table(rows, orders)
    ensures Split(rows, orders, front, back, i, n) <==> SplitNow(rows, orders, front, back, i)
    decreases n
  {
    if n > 0 { OpenSplit(rows, orders, front, back, i, n - 1); }
  }

  lemma SplitOne(rows: seq<Keys>, orders: seq<OrderType>, front: seq<nat>, back: seq<nat>, i: nat)
    requires Table(rows, orders) && i < |rows| && Split(rows, orders, front, back, i)
    ensures if CompareRows(rows, orders, i, 0) <= 0 then Split(rows, orders, front + [i], back, i + 1) else Split(rows, orders, front, [i] + back, i + 1)
  {
    OpenSplit(rows, orders, front, back, i);
    OpenSplit(rows, orders, front + [i], back, i + 1);
    OpenSplit(rows, orders, front, [i] + back, i + 1);
    DistributeOne(front, back, i);
  }

  lemma SplitAll(rows: seq<Keys>, orders: seq<OrderType>, a: seq<nat>, front: seq<nat>, back: seq<nat>)
    requires Table(rows, orders) && 0 < |rows| && Split(rows, orders, front, back, |rows|)
    requires |a| == |front| + 1 + |back| && a[..|front| + 1] == front + [0] && a[|front| + 1..] == back
    ensures multiset(a) == multiset(Numbers(|rows|))
    ensures Span(rows, orders, a, 0, |front| + 1, None, Some(0)) && Span(rows, orders, a, |front| + 1, |a|, Some(0), None)
  {
    OpenSplit(rows, orders, front, back, |rows|);
    assert a == front + [0] + back;
    DistributedAll(a, front, back, |rows|);
    OrderOfRows(rows, orders, 0, 0, 0);
  }

  /** Writes a row number behind the front. */
  method PlaceLow(a: array<nat>, low: nat, high: nat, row: nat)
    requires low <= high < a.Length
    modifies a
    ensures a[..low + 1] == old(a[..low]) + [row] && a[high + 1..] == old(a[high + 1..])
  {
    a[low] := row;
  }

  /** Writes a row number before the back. */
  method PlaceHigh(a: array<nat>, low: nat, high: nat, row: nat)
    requires low <= high < a.Length
    modifies a
    ensures a[..low] == old(a[..low]) && a[high..] == [row] + old(a[high + 1..])
  {
    a[high] := row;
  }

  /** Puts a row in front or at the back. */
  method Distribute(rows: seq<Keys>, orders: seq<OrderType>, a: array<nat>, i: nat, low: int, high: int) returns (low': int, high': int)
    requires Table(rows, orders) && i < |rows| && 0 <= low < high < a.Length
    requires Split(rows, orders, a[..low], a[high + 1..], i)
    modifies a
    ensures (low' == low + 1 && high' == high) || (low' == low && high' == high - 1)
    ensures Split(rows, orders, a[..low'], a[high' + 1..], i + 1)
  {
    SplitOne(rows, orders, a[..low], a[high + 1..], i);
    low', high' := low, high;
    if CompareRows(rows, orders, i, 0) <= 0 {
      PlaceLow(a, low, high, i);
      low' := low + 1;
    } else {
      PlaceHigh(a, low, high, i);
      high' := high - 1;
    }
  }

  lemma SplitNothing(rows: seq<Keys>, orders: seq<OrderType>, front: seq<nat>, back: seq<nat>)
    requires Table(rows, orders) && front == back == []
    ensures Split(rows, orders, front, back, 1)
  {
    OpenSplit(rows, orders, front, back, 1);
    assert Numbers(1) == [0];
  }

  /** Distributes all row numbers around row 0. */
  method QuicksortInitial(rows: seq<Keys>, orders: seq<OrderType>, a: array<nat>) returns (low: int)
    requires Table(rows, orders) && a.Length == |rows| && 0 < |rows|
    modifies a
    ensures 0 <= low < a.Length && multiset(a[..]) == multiset(Numbers(|rows|))
    ensures Span(rows, orders, a[..], 0, low + 1, None, Some(0)) && Span(rows, orders, a[..], low + 1, a.Length, Some(0), None)
  {
    low := 0;
    var high := |rows| - 1;
    SplitNothing(rows, orders, a[..low], a[high + 1..]);
    var i := 1;
    while i < |rows|
      invariant 1 <= i <= |rows| && 0 <= low <= high < |rows| && high - low == |rows| - i
      invariant Split(rows, orders, a[..low], a[high + 1..], i)
    {
      low, high := Distribute(rows, orders, a, i, low, high);
      i := i + 1;
    }
    ghost var front, back := a[..low], a[low + 1..];
    PlaceLow(a, low, low, 0);
    SplitAll(rows, orders, a[..], front, back);
  }

  /** In the first column in which two keys differ they are in the order of that column. */
  ghost predicate ColumnsInOrder(orders: seq<OrderType>, x: Keys, y: Keys)
    requires |x| == |y| == |orders|
  {
    forall c :: 0 <= c < |orders| && x[..c] == y[..c] && x[c] != y[c] ==> if orders[c] == ASCENDING then x[c] < y[c] else x[c] > y[c]
  }

  lemma SortedIsInOrder(rows: seq<Keys>, orders: seq<OrderType>, a: seq<nat>)
    requires Table(rows, orders) && RowNumbers(rows, a) && Sorted(rows, orders, a, 0, |a|)
    ensures forall i, j :: 0 <= i < j < |a| ==> ColumnsInOrder(orders, rows[a[i]], rows[a[j]])
  {
    forall i, j | 0 <= i < j < |a| ensures ColumnsInOrder(orders, rows[a[i]], rows[a[j]]) {
      assert InOrder(rows, orders, a[i], a[j]);
      NotAfterIsInOrder(orders, rows[a[i]], rows[a[j]]);
    }
  }

  lemma NotAfterIsInOrder(orders: seq<OrderType>, x: Keys, y: Keys)
    requires |x| == |y| == |orders| && Compare(orders, x, y) <= 0
    ensures ColumnsInOrder(orders, x, y)
  {
    forall c | 0 <= c < |orders| && x[..c] == y[..c] && x[c] != y[c]
      ensures if orders[c] == ASCENDING then x[c] < y[c] else x[c] > y[c]
    {
      CompareIsLexicographic(orders, y, x, c);
      CompareMirrors(orders, x, y);
    }
  }

  /** Sorts the row numbers: each of them once, in the order of their rows. */
  method Quicksort(rows: seq<Keys>, orders: seq<OrderType>, a: array<nat>)
    requires Table(rows, orders) && a.Length == |rows|
    modifies a
    ensures multiset(a[..]) == multiset(Numbers(|rows|))
    ensures RowNumbers(rows, a[..]) && Sorted(rows, orders, a[..], 0, a.Length)
    ensures forall i, j :: 0 <= i < j < a.Length ==> ColumnsInOrder(orders, rows[a[i]], rows[a[j]])
  {
    if |rows| == 0 {
      return;
    }
    var part := QuicksortInitial(rows, orders, a);
    ghost var split := a[..];
    QuicksortInplace(rows, orders, a, 0, part, None, Some(0));
    ghost var half := a[..];
    QuicksortInplace(rows, orders, a, part + 1, |rows| - 1, Some(0), None);
    HalvesSorted(rows, orders, split, half, a[..], part);
    SortedIsInOrder(rows, orders, a[..]);
  }

  lemma HalvesSorted(rows: seq<Keys>, orders: seq<OrderType>, split: seq<nat>, half: seq<nat>, now: seq<nat>, part: int)
    requires Table(rows, orders) && 0 <= part < |split| == |rows|
    requires PartSorted(rows, orders, split, half, 0, part, None, Some(0))
    requires PartSorted(rows, orders, half, now, part + 1, |rows| - 1, Some(0), None)
    ensures multiset(now) == multiset(split) && RowNumbers(rows, now) && Sorted(rows, orders, now, 0, |now|)
  {
    forall k | 0 <= k < |now| ensures now[k] < |rows| {
      if k <= part { assert now[k] == half[k] && Within(rows, orders, half[k], None, Some(0)); }
      else { assert Within(rows, orders, now[k], Some(0), None); }
    }
    forall i, j | 0 <= i < j < |now| ensures InOrder(rows, orders, now[i], now[j]) {
      if j <= part {
        assert now[i] == half[i] && now[j] == half[j];
      } else if i <= part {
        assert now[i] == half[i] && Within(rows, orders, half[i], None, Some(0)) && Within(rows, orders, now[j], Some(0), None);
        Around(rows, orders, now[i], 0, now[j]);
      }
    }
  }
}
