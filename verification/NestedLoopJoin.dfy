/** The nested loop join, pulled chunk by chunk. */
module NestedLoopJoin {
  import opened Versions
  import opened Join

  type Chunk = seq<Row>

  function Flat(chunks: seq<Chunk>): seq<Row> {
    if chunks == [] then [] else chunks[0] + Flat(chunks[1..])
  }

  ghost predicate Chunks(chunks: seq<Chunk>) {
    forall i :: 0 <= i < |chunks| ==> 0 < |chunks[i]| <= STANDARD_VECTOR_SIZE
  }

  lemma {:induction false} FlatJoin(a: seq<Chunk>, b: seq<Chunk>)
    ensures Flat(a + b) == Flat(a) + Flat(b)
  {
    if a == [] {
      assert a + b == b;
    } else {
      assert (a + b)[1..] == a[1..] + b;
      FlatJoin(a[1..], b);
    }
  }

  lemma FlatOne(c: Chunk)
    ensures Flat([c]) == c
  {
    assert Flat([c]) == c + Flat([]);
  }

  /** A child operator: it hands out its chunks one by one, and empty ones when there are no more. */
  class ChunkSource {
    const chunks: seq<Chunk>
    var next: nat

    ghost predicate Valid()
      reads this
    {
      Chunks(chunks) && next <= |chunks|
    }

    constructor (chunks: seq<Chunk>)
      requires Chunks(chunks)
      ensures Valid() && this.chunks == chunks && next == 0
    {
      this.chunks, next := chunks, 0;
    }

    method GetChunk() returns (chunk: Chunk)
      requires Valid()
      modifies this
      ensures Valid()
      ensures if old(next) < |chunks| then chunk == chunks[old(next)] && next == old(next) + 1 else chunk == [] && next == old(next)
    {
      if next < |chunks| {
        chunk := chunks[next];
        next := next + 1;
      } else {
        chunk := [];
      }
    }
  }

  /** All chunks but the last are full. */
  ghost predicate Packed(chunks: seq<Chunk>) {
    Chunks(chunks) && forall i :: 0 <= i < |chunks| - 1 ==> |chunks[i]| == STANDARD_VECTOR_SIZE
  }

  /** Appends a chunk to a collection: it fills up the last chunk first. */
  method AppendChunk(chunks: seq<Chunk>, more: Chunk) returns (chunks': seq<Chunk>)
    requires Packed(chunks) && |more| <= STANDARD_VECTOR_SIZE
    ensures Packed(chunks') && Flat(chunks') == Flat(chunks) + more
  {
    chunks' := chunks;
    if |more| == 0 {
      return;
    }
    var offset := 0;
    if |chunks| != 0 {
      var n := |chunks| - 1;
      var last := chunks[n];
      offset := if |more| <= STANDARD_VECTOR_SIZE - |last| then |more| else STANDARD_VECTOR_SIZE - |last|;
      chunks' := chunks[..n] + [last + more[..offset]];
      assert chunks == chunks[..n] + [last];
      FlatJoin(chunks[..n], [last]);
      FlatJoin(chunks[..n], [last + more[..offset]]);
      FlatOne(last);
      FlatOne(last + more[..offset]);
      assert Flat(chunks') == Flat(chunks) + more[..offset];
    }
    if offset < |more| {
      FlatJoin(chunks', [more[offset..]]);
      FlatOne(more[offset..]);
      chunks' := chunks' + [more[offset..]];
    }
    assert more[..offset] + more[offset..] == more;
  }

  // ----- one row against one chunk -----

  lemma {:induction false} MatchesJoin(conditions: seq<JoinCondition>, l: Row, a: seq<Row>, b: seq<Row>, ops: Meaning)
    ensures MatchesOf(conditions, l, a + b, ops) == MatchesOf(conditions, l, a, ops) + MatchesOf(conditions, l, b, ops)
  {
    if a == [] {
      assert a + b == b;
    } else {
      assert (a + b)[1..] == a[1..] + b;
      MatchesJoin(conditions, l, a[1..], b, ops);
    }
  }

  lemma {:induction false} RowsJoin(conditions: seq<JoinCondition>, a: seq<Row>, b: seq<Row>, rs: seq<Row>, ops: Meaning)
    ensures JoinRows(conditions, a + b, rs, ops) == JoinRows(conditions, a, rs, ops) + JoinRows(conditions, b, rs, ops)
  {
    if a == [] {
      assert a + b == b;
    } else {
      assert (a + b)[1..] == a[1..] + b;
      RowsJoin(conditions, a[1..], b, rs, ops);
    }
  }

  lemma NextRight(conditions: seq<JoinCondition>, l: Row, chunks: seq<Chunk>, k: nat, ops: Meaning)
    requires k < |chunks|
    ensures MatchesOf(conditions, l, Flat(chunks[k..]), ops)
      == MatchesOf(conditions, l, chunks[k], ops) + MatchesOf(conditions, l, Flat(chunks[k + 1..]), ops)
    ensures k + 1 == |chunks| ==> MatchesOf(conditions, l, Flat(chunks[k + 1..]), ops) == []
  {
    var rest := chunks[k..];
    assert rest[0] == chunks[k] && rest[1..] == chunks[k + 1..];
    MatchesJoin(conditions, l, rest[0], Flat(rest[1..]), ops);
  }

  lemma NextRow(conditions: seq<JoinCondition>, chunk: Chunk, p: nat, right: seq<Row>, ops: Meaning)
    requires p <= |chunk|
    ensures JoinRows(conditions, chunk[p..], right, ops)
      == if p < |chunk| then MatchesOf(conditions, chunk[p], right, ops) + JoinRows(conditions, chunk[p + 1..], right, ops) else []
  {
    if p < |chunk| { assert chunk[p..][0] == chunk[p] && chunk[p..][1..] == chunk[p + 1..]; }
  }

  /** The pairs from row p of the chunk on, where row p has met the right chunks before the k-th, and then of the later left rows. */
  ghost function RemainingPairs(conditions: seq<JoinCondition>, chunk: Chunk, p: nat, chunks: seq<Chunk>, k: nat,
                                later: seq<Row>, right: seq<Row>, ops: Meaning): seq<Pair>
  {
    (if p < |chunk| && k <= |chunks|
     then MatchesOf(conditions, chunk[p], Flat(chunks[k..]), ops) + JoinRows(conditions, chunk[p + 1..], right, ops)
     else [])
      + JoinRows(conditions, later, right, ops)
  }

  /** RemainingPairs, closed. */
  ghost function Remaining(conditions: seq<JoinCondition>, chunk: Chunk, p: nat, chunks: seq<Chunk>, k: nat,
                           later: seq<Row>, right: seq<Row>, ops: Meaning, n: nat := CLOSED): seq<Pair>
    decreases p, n
  {
    if n > 0 then Remaining(conditions, chunk, p, chunks, k, later, right, ops, n - 1)
    else RemainingPairs(conditions, chunk, p, chunks, k, later, right, ops)
  }

  lemma {:induction false} RemainingOpens(conditions: seq<JoinCondition>, chunk: Chunk, p: nat, chunks: seq<Chunk>, k: nat,
                                          later: seq<Row>, right: seq<Row>, ops: Meaning, n: nat := CLOSED)
    ensures Remaining(conditions, chunk, p, chunks, k, later, right, ops, n)
         == RemainingPairs(conditions, chunk, p, chunks, k, later, right, ops)
    decreases p, n
  {
    if n > 0 { RemainingOpens(conditions, chunk, p, chunks, k, later, right, ops, n - 1); }
  }

  lemma RemainingNext(conditions: seq<JoinCondition>, chunk: Chunk, p: nat, chunks: seq<Chunk>, k: nat,
                      later: seq<Row>, right: seq<Row>, ops: Meaning)
    requires p < |chunk| && k < |chunks| && Flat(chunks) == right
    ensures Remaining(conditions, chunk, p, chunks, k, later, right, ops)
      == MatchesOf(conditions, chunk[p], chunks[k], ops)
         + (if k + 1 < |chunks| then Remaining(conditions, chunk, p, chunks, k + 1, later, right, ops)
            else Remaining(conditions, chunk, p + 1, chunks, 0, later, right, ops))
  {
    RemainingOpens(conditions, chunk, p, chunks, k, later, right, ops);
    RemainingOpens(conditions, chunk, p, chunks, k + 1, later, right, ops);
    RemainingOpens(conditions, chunk, p + 1, chunks, 0, later, right, ops);
    PairsNext(conditions, chunk, p, chunks, k, later, right, ops);
  }

  lemma PairsNext(conditions: seq<JoinCondition>, chunk: Chunk, p: nat, chunks: seq<Chunk>, k: nat,
                  later: seq<Row>, right: seq<Row>, ops: Meaning)
    requires p < |chunk| && k < |chunks| && Flat(chunks) == right
    ensures RemainingPairs(conditions, chunk, p, chunks, k, later, right, ops)
      == MatchesOf(conditions, chunk[p], chunks[k], ops)
         + (if k + 1 < |chunks| then RemainingPairs(conditions, chunk, p, chunks, k + 1, later, right, ops)
            else RemainingPairs(conditions, chunk, p + 1, chunks, 0, later, right, ops))
  {
    var now := MatchesOf(conditions, chunk[p], chunks[k], ops);
    var more := MatchesOf(conditions, chunk[p], Flat(chunks[k + 1..]), ops);
    var below := JoinRows(conditions, chunk[p + 1..], right, ops);
    NextRight(conditions, chunk[p], chunks, k, ops);
    FirstOfFour(now, more, below, JoinRows(conditions, later, right, ops));
    if k + 1 == |chunks| {
      assert more + below == below;
      NextRow(conditions, chunk, p + 1, right, ops);
      assert chunks[0..] == chunks;
    }
  }

  lemma FirstOfFour<T>(a: seq<T>, b: seq<T>, c: seq<T>, d: seq<T>)
    ensures ((a + b) + c) + d == a + ((b + c) + d)
  {
  }

  lemma {:induction false} NothingToMatch(conditions: seq<JoinCondition>, ls: seq<Row>, ops: Meaning)
    ensures JoinRows(conditions, ls, [], ops) == []
  {
    if ls != [] { NothingToMatch(conditions, ls[1..], ops); }
  }

  /** The truth of the first n conditions for a pair. */
  ghost predicate MatchesFirst(conditions: seq<JoinCondition>, n: nat, l: Row, r: Row, ops: Meaning)
    requires n <= |conditions|
  {
    Matches(conditions[..n], l, r, ops)
  }

  lemma MatchesNext(conditions: seq<JoinCondition>, n: nat, l: Row, r: Row, final: Value, v: Value, ops: Meaning)
    requires n < |conditions|
    requires v == Compared(conditions[n].comparison, Eval(conditions[n].left, l, ops), Eval(conditions[n].right, r, ops))
    requires n > 0 ==> (IsTrue(final) <==> MatchesFirst(conditions, n, l, r, ops))
    ensures IsTrue(if n == 0 then v else Conjunction([v, final])) <==> MatchesFirst(conditions, n + 1, l, r, ops)
  {
    assert conditions[..n + 1] == conditions[..n] + [conditions[n]];
    MatchesMore(conditions[..n], conditions[n], l, r, ops);
    assert [v, final][0] == v && [v, final][1] == final;
  }

  /** Evaluates the conditions of a left row for all rows of a right chunk, and selects the rows for which they hold. */
  method MatchChunk(conditions: seq<JoinCondition>, leftValues: seq<Value>, ghost l: Row, right: Chunk, ops: Meaning) returns (selected: seq<Row>)
    requires conditions != [] && |leftValues| == |conditions|
    requires forall i :: 0 <= i < |conditions| ==> leftValues[i] == Eval(conditions[i].left, l, ops)
    ensures |selected| <= |right|
    ensures PairsWith(l, selected) == MatchesOf(conditions, l, right, ops)
  {
    var final: seq<Value> := seq(|right|, j => None);
    var i := 0;
    while i < |conditions|
      invariant 0 <= i <= |conditions| && |final| == |right|
      invariant i > 0 ==> forall j :: 0 <= j < |right| ==> (IsTrue(final[j]) <==> MatchesFirst(conditions, i, l, right[j], ops))
    {
      var c := conditions[i];
      var intermediate := seq(|right|, j requires 0 <= j < |right| => Compared(c.comparison, leftValues[i], Eval(c.right, right[j], ops)));
      forall j | 0 <= j < |right| { MatchesNext(conditions, i, l, right[j], final[j], intermediate[j], ops); }
      final := seq(|right|, j requires 0 <= j < |right| == |final| == |intermediate| =>
        if i == 0 then intermediate[j] else Conjunction([intermediate[j], final[j]]));
      i := i + 1;
    }
    assert conditions[..i] == conditions;
    selected := [];
    var j := 0;
    while j < |right|
      invariant 0 <= j <= |right| && |selected| <= j
      invariant PairsWith(l, selected) == MatchesOf(conditions, l, right[..j], ops)
    {
      assert right[..j + 1] == right[..j] + [right[j]];
      MatchesJoin(conditions, l, right[..j], [right[j]], ops);
      assert MatchesFirst(conditions, |conditions|, l, right[j], ops) <==> Matches(conditions, l, right[j], ops);
      assert [right[j]][1..] == [];
      if IsTrue(final[j]) {
        selected := selected + [right[j]];
      }
      j := j + 1;
    }
    assert right[..j] == right;
  }

  function PairsWith(l: Row, rs: seq<Row>): (ps: seq<Pair>)
    ensures |ps| == |rs| && forall i :: 0 <= i < |ps| ==> ps[i] == (l, rs[i])
  {
    seq(|rs|, i requires 0 <= i < |rs| => (l, rs[i]))
  }

  /** For each condition the values of its left operand in the rows of a chunk. */
  function LeftValues(conditions: seq<JoinCondition>, chunk: Chunk, ops: Meaning): (vs: seq<seq<Value>>)
    ensures |vs| == |conditions|
    ensures forall i :: 0 <= i < |vs| ==>
      && |vs[i]| == |chunk|
      && forall p :: 0 <= p < |chunk| ==> vs[i][p] == Eval(conditions[i].left, chunk[p], ops)
  {
    seq(|conditions|, i requires 0 <= i < |conditions| =>
      seq(|chunk|, p requires 0 <= p < |chunk| => Eval(conditions[i].left, chunk[p], ops)))
  }

  /** The values at one position. */
  function ValuesAt(values: seq<seq<Value>>, position: nat): (vs: seq<Value>)
    requires forall i :: 0 <= i < |values| ==> position < |values[i]|
    ensures |vs| == |values| && forall i :: 0 <= i < |vs| ==> vs[i] == values[i][position]
  {
    seq(|values|, i requires 0 <= i < |values| => values[i][position])
  }

  // ----- the operator -----

  class NestedLoopJoin {
    const conditions: seq<JoinCondition>
    const ops: Meaning
    const left: ChunkSource
    const right: seq<Chunk>
    var childChunk: Chunk
    /** For each condition the values of its left operand in the rows of the child chunk. */
    var leftValues: seq<seq<Value>>
    var leftPosition: nat
    var rightChunk: nat
    /** The whole right side, once it has been fetched. */
    var rightChunks: seq<Chunk>

    ghost predicate Valid()
      reads this, left
    {
      && conditions != [] && left.Valid() && Chunks(right) && Packed(rightChunks) && |childChunk| <= STANDARD_VECTOR_SIZE
      && (rightChunks == [] ==> childChunk == [])
      && (rightChunks != [] ==> Flat(rightChunks) == Flat(right) && rightChunk < |rightChunks|)
      && (leftPosition < |childChunk| ==> ValuesOf())
    }

    ghost predicate ValuesOf()
      reads this
    {
      && |leftValues| == |conditions|
      && forall i :: 0 <= i < |conditions| ==>
           && |leftValues[i]| == |childChunk|
           && forall p :: 0 <= p < |childChunk| ==> leftValues[i][p] == Eval(conditions[i].left, childChunk[p], ops)
    }

    constructor (left: ChunkSource, right: seq<Chunk>, conditions: seq<JoinCondition>, ops: Meaning)
      requires left.Valid() && left.next == 0 && Chunks(right) && conditions != []
      ensures Valid() && this.left == left && Pending() == JoinRows(conditions, Flat(left.chunks), Flat(right), ops)
    {
      this.left, this.right, this.conditions, this.ops := left, right, conditions, ops;
      childChunk, leftValues, leftPosition, rightChunk, rightChunks := [], [], 0, 0, [];
      new;
      assert left.chunks[0..] == left.chunks;
      LaterRowsOnly();
    }

    /** The pairs that are still to come. */
    ghost function Pending(): seq<Pair>
      requires Valid()
      reads this, left
    {
      Remaining(conditions, childChunk, leftPosition, rightChunks, rightChunk, Flat(left.chunks[left.next..]), Flat(right), ops)
    }

    /** Past the last row of the left chunk, only later left rows are to come. */
    lemma LaterRowsOnly()
      requires Valid() && |childChunk| <= leftPosition
      ensures Pending() == JoinRows(conditions, Flat(left.chunks[left.next..]), Flat(right), ops)
    {
      RemainingOpens(conditions, childChunk, leftPosition, rightChunks, rightChunk, Flat(left.chunks[left.next..]), Flat(right), ops);
    }

    /** Fetches the whole right side. */
    method Materialize()
      requires Valid() && rightChunks == []
      modifies this`rightChunks, this`rightChunk
      ensures Valid() && Pending() == old(Pending())
      ensures rightChunks == [] ==> Flat(right) == []
    {
      LaterRowsOnly();
      var source := new ChunkSource(right);
      var collected: seq<Chunk> := [];
      var chunk := source.GetChunk();
      collected := AppendChunk(collected, chunk);
      assert right != [] ==> right[..1] == [right[0]];
      while |chunk| > 0
        invariant source.Valid() && fresh(source) && source.chunks == right && Packed(collected)
        invariant Flat(collected) == Flat(right[..source.next])
        invariant chunk == [] ==> source.next == |right|
        decreases |right| - source.next, |chunk|
      {
        chunk := source.GetChunk();
        if chunk != [] {
          assert right[..source.next] == right[..source.next - 1] + [chunk];
          FlatJoin(right[..source.next - 1], [chunk]);
          FlatOne(chunk);
        }
        collected := AppendChunk(collected, chunk);
      }
      assert right[..source.next] == right;
      rightChunks := collected;
      rightChunk := 0;
      LaterRowsOnly();
    }

    /** Fetches the next chunk of the left side and evaluates the left operands in it. */
    method NextLeft() returns (more: bool)
      requires Valid() && rightChunks != [] && |childChunk| <= leftPosition
      modifies this`childChunk, this`leftValues, this`leftPosition, this`rightChunk, left
      ensures Valid() && Pending() == old(Pending())
      ensures more ==> leftPosition < |childChunk| && left.next == old(left.next) + 1 && left.next <= |left.chunks|
      ensures !more ==> Pending() == []
    {
      LaterRowsOnly();
      ghost var rest := left.chunks[left.next..];
      childChunk := left.GetChunk();
      if |childChunk| == 0 {
        assert rest == [] && left.chunks[left.next..] == [];
        LaterRowsOnly();
        return false;
      }
      assert rest[1..] == left.chunks[left.next..];
      leftPosition, rightChunk := 0, 0;
      leftValues := LeftValues(conditions, childChunk, ops);
      FirstRow(rest);
      more := true;
    }

    lemma FirstRow(rest: seq<Chunk>)
      requires Valid() && rightChunks != [] && leftPosition == 0 && rightChunk == 0 && 0 < |childChunk|
      requires rest != [] && rest[0] == childChunk && rest[1..] == left.chunks[left.next..]
      ensures Pending() == JoinRows(conditions, Flat(rest), Flat(right), ops)
    {
      assert rightChunks[0..] == rightChunks;
      RemainingOpens(conditions, childChunk, 0, rightChunks, 0, Flat(left.chunks[left.next..]), Flat(right), ops);
      RowsJoin(conditions, childChunk, Flat(rest[1..]), Flat(right), ops);
    }

    /** After a right chunk: the next one, or the first one with the next left row. */
    method Advance()
      requires Valid() && rightChunks != [] && leftPosition < |childChunk|
      modifies this`leftPosition, this`rightChunk
      ensures Valid() && leftPosition <= |childChunk|
      ensures old(Pending()) == MatchesOf(conditions, childChunk[old(leftPosition)], rightChunks[old(rightChunk)], ops) + Pending()
      ensures leftPosition == old(leftPosition) + (if old(rightChunk) + 1 < |rightChunks| then 0 else 1)
      ensures rightChunk == if old(rightChunk) + 1 < |rightChunks| then old(rightChunk) + 1 else 0
    {
      RemainingNext(conditions, childChunk, leftPosition, rightChunks, rightChunk, Flat(left.chunks[left.next..]), Flat(right), ops);
      rightChunk := rightChunk + 1;
      if rightChunk >= |rightChunks| {
        leftPosition := leftPosition + 1;
        rightChunk := 0;
      }
    }

    /** Joins the current left row with the current right chunk. */
    method Step() returns (chunk: seq<Pair>)
      requires Valid() && rightChunks != [] && leftPosition < |childChunk|
      modifies this`leftPosition, this`rightChunk
      ensures Valid() && old(Pending()) == chunk + Pending() && |chunk| <= STANDARD_VECTOR_SIZE
      ensures leftPosition <= |childChunk|
      ensures leftPosition == old(leftPosition) + (if old(rightChunk) + 1 < |rightChunks| then 0 else 1)
      ensures rightChunk == if old(rightChunk) + 1 < |rightChunks| then old(rightChunk) + 1 else 0
    {
      ghost var l := childChunk[leftPosition];
      var selected := MatchChunk(conditions, ValuesAt(leftValues, leftPosition), l, rightChunks[rightChunk], ops);
      chunk := PairsWith(childChunk[leftPosition], selected);
      Advance();
    }

    /** The next chunk of pairs, or an empty one when there are no more. */
    method GetChunk() returns (chunk: seq<Pair>)
      requires Valid()
      modifies this`childChunk, this`leftValues, this`leftPosition, this`rightChunk, this`rightChunks, left
      ensures Valid() && old(Pending()) == chunk + Pending()
      ensures |chunk| <= STANDARD_VECTOR_SIZE && (chunk == [] ==> Pending() == [])
    {
      chunk := [];
      if |rightChunks| == 0 {
        Materialize();
        if |rightChunks| == 0 {
          LaterRowsOnly();
          NothingToMatch(conditions, Flat(left.chunks[left.next..]), ops);
          return;
        }
      }
      while true
        invariant Valid() && rightChunks != [] && chunk == [] && Pending() == old(Pending())
        decreases |left.chunks| - left.next, |childChunk| - leftPosition, |rightChunks| - rightChunk
      {
        if leftPosition >= |childChunk| {
          var more := NextLeft();
          if !more {
            return;
          }
        }
        chunk := Step();
        if |chunk| > 0 {
          return;
        }
      }
    }

    /** Pulls chunk after chunk: the join gives exactly the matching pairs, each once and in order. */
    method GetAll() returns (all: seq<Pair>)
      requires Valid()
      modifies this`childChunk, this`leftValues, this`leftPosition, this`rightChunk, this`rightChunks, left
      ensures Valid() && all == old(Pending())
    {
      ghost var total, rest := Pending(), Pending();
      var chunk := GetChunk();
      all := chunk;
      rest := Pending();
      while chunk != []
        invariant Valid() && rest == Pending() && total == all + rest
        invariant chunk == [] ==> rest == []
        decreases |rest|, |chunk|
      {
        ghost var before := rest;
        chunk := GetChunk();
        rest := Pending();
        JoinAssociates(all, chunk, rest);
        all := all + chunk;
      }
    }
  }

  /** Runs the join of two plans whose rows come in chunks. */
  method ExecuteJoin(s: JoinState, leftChunks: seq<Chunk>, rightChunks: seq<Chunk>, ops: Meaning) returns (pairs: seq<Pair>)
    requires s.conditions != [] && Chunks(leftChunks) && Chunks(rightChunks)
    requires Flat(leftChunks) == Rows(s.left, ops) && Flat(rightChunks) == Rows(s.right, ops)
    ensures pairs == JoinOutput(s, ops)
  {
    var left := new ChunkSource(leftChunks);
    var join := new NestedLoopJoin(left, rightChunks, s.conditions, ops);
    pairs := join.GetAll();
  }

  /** From the ON condition to the result: exactly the pairs that the condition is true of. */
  method ExecuteOn(e: Expression, leftTables: set<nat>, leftRows: seq<Row>, rightTables: set<nat>, rightRows: seq<Row>,
                   leftChunks: seq<Chunk>, rightChunks: seq<Chunk>, ops: Meaning) returns (pairs: seq<Pair>)
    requires Grammatical(e) && Placeable(e, leftTables, rightTables) && leftTables !! rightTables
    requires WellFormedPlan(Get(leftTables, leftRows)) && WellFormedPlan(Get(rightTables, rightRows))
    requires var s := JoinState(Get(leftTables, leftRows), Get(rightTables, rightRows), []);
      && SetCondition(s, e).Some? && SetCondition(s, e).value.conditions != []
      && Chunks(leftChunks) && Flat(leftChunks) == Rows(SetCondition(s, e).value.left, ops)
      && Chunks(rightChunks) && Flat(rightChunks) == Rows(SetCondition(s, e).value.right, ops)
    ensures pairs == CrossWhere((l, r) => IsTrue(Eval(e, l + r, ops)), leftRows, rightRows)
    ensures pairs == JoinOutput(SetCondition(JoinState(Get(leftTables, leftRows), Get(rightTables, rightRows), []), e).value, ops)
  {
    var join := new LogicalJoin(Get(leftTables, leftRows), Get(rightTables, rightRows));
    var ok := join.SetJoinCondition(e);
    GrammaticalJoin(e, leftTables, leftRows, rightTables, rightRows, ops);
    pairs := ExecuteJoin(join.State(), leftChunks, rightChunks, ops);
  }
}
