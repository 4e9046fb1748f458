/** Rows as byte strings: copying a row out of the column buffers and back, and comparing a key with a row. */
module TupleSerializer {
  import opened Versions
  import opened Serialization

  type Bytes = seq<byte>

  /** Where the i-th field starts when the fields lie one after the other. */
  function Offset(sizes: seq<nat>, i: nat): nat
    requires i <= |sizes|
  {
    if i == 0 then 0 else Offset(sizes, i - 1) + sizes[i - 1]
  }

  lemma {:induction false} OffsetsAscend(sizes: seq<nat>, i: nat, j: nat)
    requires i <= j <= |sizes|
    ensures Offset(sizes, i) <= Offset(sizes, j)
    ensures i < j ==> Offset(sizes, i) + sizes[i] <= Offset(sizes, j)
  {
    if i < j { OffsetsAscend(sizes, i, j - 1); }
  }

  /** The i-th field of a row laid out as one byte string. */
  function Field(row: Bytes, sizes: seq<nat>, i: nat): (f: Bytes)
    requires i < |sizes| && Offset(sizes, |sizes|) <= |row|
    ensures |f| == sizes[i]
  {
    OffsetsAscend(sizes, i, |sizes|);
    row[Offset(sizes, i)..Offset(sizes, i) + sizes[i]]
  }

  /** Two rows are the same bytes exactly when they agree in every field: one comparison of all bytes is enough. */
  lemma {:induction false} SameFieldsSameRow(a: Bytes, b: Bytes, sizes: seq<nat>)
    requires |a| == |b| == Offset(sizes, |sizes|)
    ensures a == b <==> forall i :: 0 <= i < |sizes| ==> Field(a, sizes, i) == Field(b, sizes, i)
  {
    if forall i :: 0 <= i < |sizes| ==> Field(a, sizes, i) == Field(b, sizes, i) { SamePrefix(a, b, sizes, |sizes|); }
  }

  lemma {:induction false} SamePrefix(a: Bytes, b: Bytes, sizes: seq<nat>, n: nat)
    requires |a| == |b| == Offset(sizes, |sizes|) && n <= |sizes|
    requires forall i :: 0 <= i < n ==> Field(a, sizes, i) == Field(b, sizes, i)
    ensures Offset(sizes, n) <= |a| && a[..Offset(sizes, n)] == b[..Offset(sizes, n)]
  {
    OffsetsAscend(sizes, n, |sizes|);
    if n > 0 {
      SamePrefix(a, b, sizes, n - 1);
      var lo, hi := Offset(sizes, n - 1), Offset(sizes, n);
      assert Field(a, sizes, n - 1) == a[lo..hi] && Field(b, sizes, n - 1) == b[lo..hi];
      assert a[..hi] == a[..lo] + a[lo..hi] && b[..hi] == b[..lo] + b[lo..hi];
    }
  }

  /** A buffer after some bytes were copied over its own. */
  function Overwritten(buffer: Bytes, at: nat, bytes: Bytes): (r: Bytes)
    requires at + |bytes| <= |buffer|
    ensures |r| == |buffer|
  {
    buffer[..at] + bytes + buffer[at + |bytes|..]
  }

  lemma OverwrittenAt(buffer: Bytes, at: nat, bytes: Bytes, lo: nat, hi: nat)
    requires at + |bytes| <= |buffer| && lo <= hi <= |buffer|
    ensures Overwritten(buffer, at, bytes)[at..at + |bytes|] == bytes
    ensures hi <= at || at + |bytes| <= lo ==> Overwritten(buffer, at, bytes)[lo..hi] == buffer[lo..hi]
  {
    var r := Overwritten(buffer, at, bytes);
    assert forall k :: at <= k < at + |bytes| ==> r[k] == bytes[k - at];
    if hi <= at {
      assert forall k :: lo <= k < hi ==> r[k] == buffer[k];
    } else if at + |bytes| <= lo {
      var tail := buffer[at + |bytes|..];
      assert forall k :: lo <= k < hi ==> r[k] == tail[k - (at + |bytes|)] == buffer[k];
    }
  }

  /** Where a row's value starts in its column's buffer. */
  function RowStart(row: nat, size: nat): nat {
    if row == 0 then 0 else RowStart(row - 1, size) + size
  }

  lemma {:induction false} RowStartIs(row: nat, size: nat)
    ensures RowStart(row, size) == size * row
  {
    if row > 0 { RowStartIs(row - 1, size); }
  }

  lemma {:induction false} RowsAscend(row: nat, other: nat, size: nat)
    requires row < other
    ensures RowStart(row, size) + size <= RowStart(other, size)
  {
    if row + 1 < other { RowsAscend(row, other - 1, size); }
  }

  /** The slice of a column's buffer that belongs to one row. */
  predicate HasSlot(buffer: Bytes, row: nat, size: nat) {
    RowStart(row, size) + size <= |buffer|
  }

  function Slot(buffer: Bytes, row: nat, size: nat): (f: Bytes)
    requires HasSlot(buffer, row, size)
    ensures |f| == size
  {
    buffer[RowStart(row, size)..RowStart(row, size) + size]
  }

  /** A column's buffer after one row's value was copied into it. */
  function Stored(buffer: Bytes, row: nat, bytes: Bytes): (r: Bytes)
    requires HasSlot(buffer, row, |bytes|)
    ensures |r| == |buffer|
  {
    Overwritten(buffer, RowStart(row, |bytes|), bytes)
  }

  lemma StoredAt(buffer: Bytes, row: nat, bytes: Bytes, other: nat)
    requires HasSlot(buffer, row, |bytes|) && HasSlot(buffer, other, |bytes|)
    ensures Slot(Stored(buffer, row, bytes), other, |bytes|) == if other == row then bytes else Slot(buffer, other, |bytes|)
  {
    var n := |bytes|;
    if other < row { RowsAscend(other, row, n); } else if row < other { RowsAscend(row, other, n); }
    OverwrittenAt(buffer, RowStart(row, n), bytes, RowStart(other, n), RowStart(other, n) + n);
  }

  /** A row after one more field was laid down in it. */
  lemma FieldStep(bytes: Bytes, sizes: seq<nat>, i: nat, field: Bytes)
    requires i < |sizes| && Offset(sizes, |sizes|) <= |bytes| && |field| == sizes[i]
    ensures Offset(sizes, i) + sizes[i] <= Offset(sizes, |sizes|)
    ensures var r := Overwritten(bytes, Offset(sizes, i), field);
      && Field(r, sizes, i) == field && (forall k :: 0 <= k < i ==> Field(r, sizes, k) == Field(bytes, sizes, k))
      && r[Offset(sizes, |sizes|)..] == bytes[Offset(sizes, |sizes|)..]
  {
    OffsetsAscend(sizes, i, |sizes|);
    var at := Offset(sizes, i);
    var r := Overwritten(bytes, at, field);
    OverwrittenAt(bytes, at, field, Offset(sizes, |sizes|), |bytes|);
    forall k | 0 <= k < i ensures Field(r, sizes, k) == Field(bytes, sizes, k) {
      OffsetsAscend(sizes, k, i);
      OverwrittenAt(bytes, at, field, Offset(sizes, k), Offset(sizes, k) + sizes[k]);
    }
  }

  class TupleSerializer {
    /** For each field the column it comes from, and its size. */
    const columns: seq<nat>
    const sizes: seq<nat>

    ghost predicate Valid() {
      |columns| == |sizes| && AllDistinct(columns)
    }

    constructor (columns: seq<nat>, sizes: seq<nat>)
      requires |columns| == |sizes| && AllDistinct(columns)
      ensures Valid() && this.columns == columns && this.sizes == sizes
    {
      this.columns, this.sizes := columns, sizes;
    }

    function BaseSize(): nat
      requires Valid()
    {
      Offset(sizes, |sizes|)
    }

    ghost predicate HasRow(data: seq<Bytes>, row: nat)
      requires Valid()
    {
      forall i :: 0 <= i < |columns| ==> columns[i] < |data| && HasSlot(data[columns[i]], row, sizes[i])
    }

    /** The row's first fields lie in the buffers as they do in the byte string. */
    ghost predicate Agrees(data: seq<Bytes>, row: nat, bytes: Bytes, n: nat)
      requires Valid() && HasRow(data, row) && n <= |columns| && BaseSize() <= |bytes|
    {
      forall i :: 0 <= i < n ==> Field(bytes, sizes, i) == Slot(data[columns[i]], row, sizes[i])
    }

    lemma FieldAgrees(data: seq<Bytes>, row: nat, bytes: Bytes, r: Bytes, i: nat)
      requires Valid() && HasRow(data, row) && i < |columns| && BaseSize() <= |bytes| == |r| && Agrees(data, row, bytes, i)
      requires Field(r, sizes, i) == Slot(data[columns[i]], row, sizes[i])
      requires forall k :: 0 <= k < i ==> Field(r, sizes, k) == Field(bytes, sizes, k)
      ensures Agrees(data, row, r, i + 1)
    {
    }

    lemma SerializeStep(data: seq<Bytes>, row: nat, bytes: Bytes, i: nat)
      requires Valid() && HasRow(data, row) && i < |columns| && BaseSize() <= |bytes| && Agrees(data, row, bytes, i)
      ensures Offset(sizes, i) + sizes[i] <= |bytes|
      ensures var r := Overwritten(bytes, Offset(sizes, i), Slot(data[columns[i]], row, sizes[i]));
        Agrees(data, row, r, i + 1) && r[BaseSize()..] == bytes[BaseSize()..]
    {
      var field := Slot(data[columns[i]], row, sizes[i]);
      FieldStep(bytes, sizes, i, field);
      FieldAgrees(data, row, bytes, Overwritten(bytes, Offset(sizes, i), field), i);
    }

    /** Agrees(), closed. */
    ghost predicate Laid(data: seq<Bytes>, row: nat, bytes: Bytes, n: nat, closed: nat := CLOSED)
      requires Valid() && HasRow(data, row) && n <= |columns| && BaseSize() <= |bytes|
      decreases n, closed
    {
      if closed > 0 then Laid(data, row, bytes, n, closed - 1) else Agrees(data, row, bytes, n)
    }

    lemma {:induction false} LaidAgrees(data: seq<Bytes>, row: nat, bytes: Bytes, n: nat, closed: nat := CLOSED)
      requires Valid() && HasRow(data, row) && n <= |columns| && BaseSize() <= |bytes|
      ensures Laid(data, row, bytes, n, closed) <==> Agrees(data, row, bytes, n)
      decreases n, closed
    {
      if closed > 0 { LaidAgrees(data, row, bytes, n, closed - 1); }
    }

    /** Copies one field out of its column buffer. */
    method SerializeField(data: array<Bytes>, row: nat, bytes: Bytes, i: nat, offset: nat, ghost buffers: seq<Bytes>) returns (r: Bytes)
      requires Valid() && buffers == data[..] && HasRow(buffers, row) && i < |columns| && BaseSize() <= |bytes|
      requires Laid(buffers, row, bytes, i) && offset == Offset(sizes, i)
      ensures |r| == |bytes| && Laid(buffers, row, r, i + 1) && r[BaseSize()..] == bytes[BaseSize()..]
    {
      LaidAgrees(buffers, row, bytes, i);
      SerializeStep(buffers, row, bytes, i);
      r := Overwritten(bytes, offset, Slot(data[columns[i]], row, sizes[i]));
      LaidAgrees(buffers, row, r, i + 1);
    }

    /** Copies a row out of the column buffers. */
    method Serialize(data: array<Bytes>, row: nat, target: Bytes) returns (bytes: Bytes)
      requires Valid() && HasRow(data[..], row) && BaseSize() <= |target|
      ensures |bytes| == |target| && Agrees(data[..], row, bytes, |columns|)
      ensures bytes[BaseSize()..] == target[BaseSize()..]
    {
      bytes := target;
      ghost var buffers := data[..];
      LaidAgrees(buffers, row, bytes, 0);
      var i, offset := 0, 0;
      while i < |columns|
        invariant 0 <= i <= |columns| && offset == Offset(sizes, i) && |bytes| == |target|
        invariant Laid(buffers, row, bytes, i)
        invariant bytes[BaseSize()..] == target[BaseSize()..]
      {
        bytes := SerializeField(data, row, bytes, i, offset, buffers);
        offset := offset + sizes[i];
        i := i + 1;
      }
      LaidAgrees(buffers, row, bytes, i);
    }

    /** The buffers after the row's i-th field was copied back. */
    ghost function FieldRestored(data: seq<Bytes>, row: nat, bytes: Bytes, i: nat): (r: seq<Bytes>)
      requires Valid() && HasRow(data, row) && i < |columns| && BaseSize() <= |bytes|
      ensures HasRow(r, row)
    {
      data[columns[i] := Stored(data[columns[i]], row, Field(bytes, sizes, i))]
    }

    /** The buffers after the row's first fields were copied back into them. */
    ghost function Restored(data: seq<Bytes>, row: nat, bytes: Bytes, n: nat): (r: seq<Bytes>)
      requires Valid() && HasRow(data, row) && BaseSize() <= |bytes| && n <= |columns|
      ensures HasRow(r, row)
    {
      if n == 0 then data else FieldRestored(Restored(data, row, bytes, n - 1), row, bytes, n - 1)
    }

    /** Of a column's slots only the row's changes, to the byte string's field. */
    lemma {:induction false} RestoredSlot(data: seq<Bytes>, row: nat, bytes: Bytes, n: nat, i: nat, other: nat)
      requires Valid() && HasRow(data, row) && BaseSize() <= |bytes| && n <= |columns|
      requires i < |columns| && HasSlot(data[columns[i]], other, sizes[i])
      ensures |Restored(data, row, bytes, n)[columns[i]]| == |data[columns[i]]|
      ensures Slot(Restored(data, row, bytes, n)[columns[i]], other, sizes[i])
        == if other == row && i < n then Field(bytes, sizes, i) else Slot(data[columns[i]], other, sizes[i])
    {
      if n > 0 {
        RestoredSlot(data, row, bytes, n - 1, i, other);
        if i == n - 1 {
          StoredAt(Restored(data, row, bytes, i)[columns[i]], row, Field(bytes, sizes, i), other);
        } else {
          assert columns[i] != columns[n - 1];
        }
      }
    }

    /** The other columns are not touched. */
    lemma {:induction false} OtherColumnsKept(data: seq<Bytes>, row: nat, bytes: Bytes, n: nat, c: nat)
      requires Valid() && HasRow(data, row) && BaseSize() <= |bytes| && n <= |columns|
      requires c < |data| && c !in columns
      ensures |Restored(data, row, bytes, n)| == |data| && Restored(data, row, bytes, n)[c] == data[c]
    {
      if n > 0 { OtherColumnsKept(data, row, bytes, n - 1, c); }
    }

    /** Copies a row back into the column buffers. */
    method Deserialize(data: array<Bytes>, row: nat, bytes: Bytes)
      requires Valid() && HasRow(data[..], row) && BaseSize() <= |bytes|
      modifies data
      ensures data[..] == Restored(old(data[..]), row, bytes, |columns|)
    {
      ghost var before := data[..];
      var i, offset := 0, 0;
      while i < |columns|
        invariant 0 <= i <= |columns| && offset == Offset(sizes, i)
        invariant data[..] == Restored(before, row, bytes, i)
      {
        var c := columns[i];
        ghost var was := data[..];
        assert HasRow(was, row);
        OffsetsAscend(sizes, i, |sizes|);
        data[c] := Stored(data[c], row, bytes[offset..offset + sizes[i]]);
        assert data[..] == FieldRestored(was, row, bytes, i);
        offset := offset + sizes[i];
        i := i + 1;
      }
    }

    /** Saving a row and putting it back over later writes to it brings back what every slot of the columns held. */
    lemma RestoreUndoes(saved: seq<Bytes>, written: seq<Bytes>, row: nat, bytes: Bytes, i: nat, other: nat)
      requires Valid() && BaseSize() <= |bytes|
      requires HasRow(saved, row) && Agrees(saved, row, bytes, |columns|) && HasRow(written, row)
      requires i < |columns| && HasSlot(saved[columns[i]], other, sizes[i]) && HasSlot(written[columns[i]], other, sizes[i])
      requires other != row ==> Slot(written[columns[i]], other, sizes[i]) == Slot(saved[columns[i]], other, sizes[i])
      ensures |Restored(written, row, bytes, |columns|)[columns[i]]| == |written[columns[i]]|
      ensures Slot(Restored(written, row, bytes, |columns|)[columns[i]], other, sizes[i]) == Slot(saved[columns[i]], other, sizes[i])
    {
      RestoredSlot(written, row, bytes, |columns|, i, other);
      assert Field(bytes, sizes, i) == Slot(saved[columns[i]], row, sizes[i]);
    }
  }

  lemma NotYet(s: seq<nat>, x: nat, j: nat)
    requires x in s && 0 < j <= |s| && x !in s[..j - 1] && x != s[j - 1]
    ensures j < |s| && x !in s[..j]
  {
    var k :| 0 <= k < |s| && s[k] == x;
    assert forall m :: 0 <= m < j - 1 ==> s[..j - 1][m] == s[m];
  }

  /** Compares a key with a row that holds the key's columns among others. */
  class TupleComparer {
    const left: TupleSerializer
    const right: TupleSerializer
    var leftOffsets: seq<nat>
    var rightOffsets: seq<nat>
    /** Where each key column stands in the row. */
    ghost var positions: seq<nat>

    /** The row keeps the key's i-th column as its j-th, and the two offsets lead there. */
    ghost predicate Located(i: nat, leftOffset: nat, rightOffset: nat, j: nat)
      requires left.Valid() && right.Valid() && i < |left.columns|
    {
      && leftOffset == Offset(left.sizes, i) && j < |right.columns| && rightOffset == Offset(right.sizes, j)
      && right.columns[j] == left.columns[i] && right.sizes[j] == left.sizes[i]
    }

    ghost predicate Valid()
      reads this
    {
      && left.Valid() && right.Valid() && |leftOffsets| == |rightOffsets| == |positions| == |left.columns|
      && (forall i :: 0 <= i < |left.columns| ==> Located(i, leftOffsets[i], rightOffsets[i], positions[i]))
    }

    constructor (left: TupleSerializer, right: TupleSerializer)
      requires left.Valid() && right.Valid()
      requires forall i :: 0 <= i < |left.columns| ==> left.columns[i] in right.columns
      requires forall i, j :: 0 <= i < |left.columns| && 0 <= j < |right.columns| && left.columns[i] == right.columns[j] ==> left.sizes[i] == right.sizes[j]
      ensures Valid() && this.left == left && this.right == right
    {
      this.left, this.right := left, right;
      leftOffsets, rightOffsets, positions := [], [], [];
      new;
      var i, leftOffset := 0, 0;
      while i < |left.columns|
        invariant 0 <= i <= |left.columns| && leftOffset == Offset(left.sizes, i)
        invariant |leftOffsets| == |rightOffsets| == |positions| == i
        invariant forall k :: 0 <= k < i ==> Located(k, leftOffsets[k], rightOffsets[k], positions[k])
      {
        var rightOffset, j := Locate(i);
        leftOffsets, rightOffsets, positions := leftOffsets + [leftOffset], rightOffsets + [rightOffset], positions + [j];
        leftOffset := leftOffset + left.sizes[i];
        i := i + 1;
      }
    }

    method Locate(i: nat) returns (rightOffset: nat, ghost position: nat)
      requires left.Valid() && right.Valid() && i < |left.columns| && left.columns[i] in right.columns
      requires forall j :: 0 <= j < |right.columns| && left.columns[i] == right.columns[j] ==> left.sizes[i] == right.sizes[j]
      ensures Located(i, Offset(left.sizes, i), rightOffset, position)
    {
      var j := 0;
      rightOffset := 0;
      while left.columns[i] != right.columns[j]
        invariant 0 <= j < |right.columns| && rightOffset == Offset(right.sizes, j)
        invariant left.columns[i] !in right.columns[..j]
        decreases |right.columns| - j
      {
        NotYet(right.columns, left.columns[i], j + 1);
        rightOffset := rightOffset + right.sizes[j];
        j := j + 1;
      }
      position := j;
    }

    /** The key and the row agree in the key's first columns, wherever the row keeps them. */
    ghost predicate SameKey(key: Bytes, row: Bytes, n: nat)
      requires left.Valid() && right.Valid() && left.BaseSize() <= |key| && right.BaseSize() <= |row| && n <= |left.columns|
    {
      forall i, j :: 0 <= i < n && 0 <= j < |right.columns| && right.columns[j] == left.columns[i] ==>
        Field(key, left.sizes, i) == Field(row, right.sizes, j)
    }

    /** The keys agree before the i-th key column, and differ by cmp in it. */
    ghost predicate Decides(key: Bytes, row: Bytes, i: nat, j: nat, cmp: int)
      requires left.Valid() && right.Valid() && left.BaseSize() <= |key| && right.BaseSize() <= |row|
    {
      && i < |left.columns| && j < |right.columns| && left.columns[i] == right.columns[j] && left.sizes[i] == right.sizes[j]
      && SameKey(key, row, i) && cmp == MemCmp(Field(key, left.sizes, i), Field(row, right.sizes, j))
    }

    /** 0 exactly when the row holds the key; otherwise the first differing key column decides. */
    method Compare(leftData: Bytes, rightData: Bytes) returns (cmp: int)
      requires Valid() && left.BaseSize() <= |leftData| && right.BaseSize() <= |rightData|
      ensures cmp == 0 <==> SameKey(leftData, rightData, |left.columns|)
      ensures cmp != 0 ==> exists i, j :: Decides(leftData, rightData, i, j, cmp)
    {
      var i := 0;
      while i < |leftOffsets|
        invariant 0 <= i <= |leftOffsets| && SameKey(leftData, rightData, i)
      {
        OffsetsAscend(left.sizes, i, |left.sizes|);
        OffsetsAscend(right.sizes, positions[i], |right.sizes|);
        var size := left.sizes[i];
        var leftElement := leftData[leftOffsets[i]..leftOffsets[i] + size];
        var rightElement := rightData[rightOffsets[i]..rightOffsets[i] + size];
        assert leftElement == Field(leftData, left.sizes, i) && rightElement == Field(rightData, right.sizes, positions[i]);
        cmp := MemCmp(leftElement, rightElement);
        if cmp != 0 {
          assert Decides(leftData, rightData, i, positions[i], cmp);
          return;
        }
        i := i + 1;
      }
      cmp := 0;
    }
  }
}
