/** One vertical `(x, y)` line of a voxel grid, `RLEColumn`: its entries are
    kept in the canonical run-length form of module `Runs`, and every mutator
    rebuilds them through `SetDataTree`.

    The column stores decoded `(position, value)` entries; how the source
    packs each entry into one `long` word is modelled in module
    `ColumnWord`. */
module Column {
  import opened Java
  import opened Runs

  class RLEColumn<V(==)> {
    const x: int
    const y: int
    var data: seq<Entry<V>>

    /** What `setDataTree` establishes, with every position a Java `int`. */
    ghost predicate Valid()
      reads this
    {
      Canonical(data) && AllInt(data)
    }

    constructor (x: int, y: int)
      ensures Valid() && this.x == x && this.y == y && data == []
    {
      this.x := x;
      this.y := y;
      data := [];
    }

    /** The binary search of `findIndexAbove`, which stops early on an exact hit. */
    method FindIndexAbove(pos: int) returns (i: nat)
      requires Valid()
      ensures i == IndexAbove(data, pos)
    {
      var low, high := 0, |data|;
      while low < high
        invariant 0 <= low <= high <= |data|
        invariant forall j :: 0 <= j < low ==> data[j].pos < pos
        invariant forall j :: high <= j < |data| ==> pos < data[j].pos
      {
        var check := (low + high) / 2;
        var checkPos := data[check].pos;
        if checkPos == pos {
          IndexAboveUnique(data, pos, check);
          return check;
        } else if checkPos > pos {
          high := check;
        } else {
          low := check + 1;
        }
      }
      IndexAboveUnique(data, pos, low);
      return low;
    }

    method Get(pos: int) returns (r: Option<V>)
      requires Valid()
      ensures r == ValueAt(data, pos)
    {
      var i := FindIndexAbove(pos);
      if i == |data| {
        r := None;
      } else {
        r := data[i].value;
      }
    }

    /** A column without entries is one whose every cell is empty. */
    method IsEmpty() returns (b: bool)
      requires Valid()
      ensures b <==> data == []
      ensures b <==> forall z :: ValueAt(data, z) == None
    {
      b := |data| == 0;
      if !b {
        TopIsFull(data);
      }
    }

    /** `maxPos`, which indexes `data[length - 1]`: the highest non-empty cell. */
    method MaxPos() returns (r: Result<int>)
      requires Valid()
      ensures r.Err? <==> data == []
      ensures r.Err? ==> r.error == IndexOutOfBounds
      ensures r.Ok? ==> r.value == data[|data| - 1].pos
      ensures r.Ok? ==> IsInt(r.value) && ValueAt(data, r.value).Some?
      ensures r.Ok? ==> forall z :: r.value < z ==> ValueAt(data, z) == None
    {
      if |data| == 0 {
        return Err(IndexOutOfBounds);
      }
      var top := data[|data| - 1].pos;
      TopIsFull(data);
      forall z | top < z ensures ValueAt(data, z) == None {
        IndexAboveUnique(data, z, |data|);
      }
      return Ok(top);
    }

    /** `minPos`, which indexes `data[0]`: the lowest boundary, below which
        every cell holds the value of the lowest run. */
    method MinPos() returns (r: Result<int>)
      requires Valid()
      ensures r.Err? <==> data == []
      ensures r.Err? ==> r.error == IndexOutOfBounds
      ensures r.Ok? ==> r.value == data[0].pos
      ensures r.Ok? ==> IsInt(r.value) && forall i :: 0 <= i < |data| ==> r.value <= data[i].pos
      ensures r.Ok? ==> forall z :: z <= r.value ==> ValueAt(data, z) == ValueAt(data, r.value)
    {
      if |data| == 0 {
        return Err(IndexOutOfBounds);
      }
      var bottom := data[0].pos;
      forall z | z <= bottom ensures ValueAt(data, z) == ValueAt(data, bottom) {
        IndexAboveUnique(data, z, 0);
        IndexAboveUnique(data, bottom, 0);
      }
      return Ok(bottom);
    }

    /** `rangeEquals`: reading `data[i2]` throws when both ends lie above the
        last entry and `t` is not empty. */
    method RangeEquals(posMin: int, posMax: int, t: Option<V>) returns (r: Result<bool>)
      requires Valid()
      ensures r.Err? <==> IndexAbove(data, posMin) == IndexAbove(data, posMax) == |data| && t.Some?
      ensures r.Err? ==> r.error == IndexOutOfBounds
      ensures r.Ok? ==> (r.value <==> IndexAbove(data, posMin) == IndexAbove(data, posMax)
                                      && ValueAt(data, posMax) == t)
      ensures r.Ok? && posMin <= posMax
              ==> (r.value <==> forall z :: posMin <= z <= posMax ==> ValueAt(data, z) == t)
    {
      var i1 := FindIndexAbove(posMin);
      var i2 := FindIndexAbove(posMax);
      if i1 != i2 {
        r := Ok(false);
      } else if t == None && i2 == |data| {
        r := Ok(true);
      } else if i2 == |data| {
        r := Err(IndexOutOfBounds);
      } else {
        r := Ok(data[i2].value == t);
      }
      if posMin <= posMax {
        UniformRange(data, posMin, posMax, t);
      }
    }

    /** `set(pos, t)`: pin the value at `pos - 1`, put `t` at `pos`, rebuild. */
    method Set(pos: int, t: Option<V>)
      requires Valid() && IsInt(pos)
      modifies this
      ensures Valid()
      ensures data == SetRuns(old(data), pos, t)
      ensures forall z :: IsInt(z) ==> ValueAt(data, z) == if z == pos then t else ValueAt(old(data), z)
    {
      ghost var before := data;
      var tree := data;
      var below := Get(Below(pos));
      PutAllInt(tree, Below(pos), below);
      tree := Put(tree, Below(pos), below);
      PutAllInt(tree, pos, t);
      tree := Put(tree, pos, t);
      SetDataTree(tree);
      forall z | IsInt(z) ensures ValueAt(data, z) == if z == pos then t else ValueAt(before, z) {
        SetRunsValue(before, pos, t, z);
      }
    }

    /** `setRange(posMin, posMax, t)`: `subMap` throws when `posMin > posMax`,
        before anything is written back. */
    method SetRange(posMin: int, posMax: int, t: Option<V>) returns (r: Result<()>)
      requires Valid() && IsInt(posMin) && IsInt(posMax)
      modifies this
      ensures Valid()
      ensures r.Err? <==> posMin > posMax
      ensures r.Err? ==> r.error == IllegalArgument && data == old(data)
      ensures r.Ok? ==> data == SetRangeRuns(old(data), posMin, posMax, t)
      ensures r.Ok? ==> forall z :: IsInt(z) ==>
                ValueAt(data, z) == if posMin <= z <= posMax then t else ValueAt(old(data), z)
    {
      ghost var before := data;
      var tree := data;
      var below := Get(Below(posMin));
      PutAllInt(tree, Below(posMin), below);
      tree := Put(tree, Below(posMin), below);
      if posMin > posMax {
        return Err(IllegalArgument);
      }
      AllIntFrom(ClearRange(tree, posMin, posMax), tree, 0);
      tree := ClearRange(tree, posMin, posMax);
      PutAllInt(tree, posMax, t);
      tree := Put(tree, posMax, t);
      SetDataTree(tree);
      forall z | IsInt(z)
        ensures ValueAt(data, z) == if posMin <= z <= posMax then t else ValueAt(before, z)
      {
        SetRangeRunsValue(before, posMin, posMax, t, z);
      }
      return Ok(());
    }

    /** `setRangeInfinite(posMax, t)`: drop every key below `posMax`, put `t` there, rebuild. */
    method SetRangeInfinite(posMax: int, t: Option<V>)
      requires Valid() && IsInt(posMax)
      modifies this
      ensures Valid()
      ensures data == SetRangeInfiniteRuns(old(data), posMax, t)
      ensures forall z :: ValueAt(data, z) == if z <= posMax then t else ValueAt(old(data), z)
    {
      ghost var before := data;
      var tree := data;
      AllIntFrom(ClearBelow(tree, posMax), tree, 0);
      tree := ClearBelow(tree, posMax);
      PutAllInt(tree, posMax, t);
      tree := Put(tree, posMax, t);
      SetDataTree(tree);
      forall z ensures ValueAt(data, z) == if z <= posMax then t else ValueAt(before, z) {
        SetRangeInfiniteRunsValue(before, posMax, t, z);
      }
    }

    /** `setDataTree`: merge the map, then write the remaining entries back
        in ascending order; the entries are stored decoded, so the write-back
        is the assignment of the merged list. */
    method SetDataTree(tree: seq<Entry<V>>)
      requires Ascending(tree) && AllInt(tree)
      modifies this
      ensures data == Merge(tree)
      ensures Valid()
    {
      var kept := MergeDescending(tree);
      data := kept;
      MergeCanonical(tree);
      MergeAllInt(tree);
    }

    /** The descending scan of `setDataTree`, with `prev` starting as null:
        every entry whose value equals `prev` is removed from the map. */
    static method MergeDescending(tree: seq<Entry<V>>) returns (kept: seq<Entry<V>>)
      ensures kept == Merge(tree)
    {
      kept := tree;
      var prev: Option<V> := None;
      var k := |tree|;
      while k > 0
        invariant 0 <= k <= |tree|
        invariant kept == tree[..k] + Merge(tree[k..])
        invariant prev == HeadValue(tree[k..])
      {
        k := k - 1;
        var t := tree[k].value;
        MergeScanStep(tree, k);
        MergeStep(tree, k);
        if t == prev {
          kept := kept[..k] + kept[k + 1..];
        }
        prev := t;
      }
    }

    /** `iterator()`: a cursor over the stored entries, starting at the bottom. */
    method Iterator() returns (it: ColumnIterator<V>)
      ensures fresh(it) && it.column == this && it.pos == 0
    {
      it := new ColumnIterator(this);
    }
  }

  /** The anonymous iterator of `RLEColumn.iterator()`: an index into the
      column's live entries. */
  class ColumnIterator<V(==)> {
    const column: RLEColumn<V>
    var pos: nat

    constructor (column: RLEColumn<V>)
      ensures this.column == column && pos == 0
    {
      this.column := column;
      pos := 0;
    }

    /** `hasNext()`: whether the cursor is still inside the entries, which is
        exactly when `next()` hands out an entry rather than failing. */
    predicate HasNext(): (b: bool)
      reads this, column
      ensures b <==> pos < |column.data|
    {
      pos < |column.data|
    }

    /** `next()`: the entry under the cursor, then advance; past the end it
        indexes outside the array. */
    method Next() returns (r: Result<Entry<V>>)
      modifies this
      ensures old(pos) < |column.data| ==> r == Ok(column.data[old(pos)]) && pos == old(pos) + 1
      ensures old(pos) >= |column.data| ==> r == Err(IndexOutOfBounds) && pos == old(pos)
    {
      if pos < |column.data| {
        r := Ok(column.data[pos]);
        pos := pos + 1;
      } else {
        r := Err(IndexOutOfBounds);
      }
    }
  }
}
