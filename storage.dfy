/** The grids of columns: `RLEArrayStorage` (a dense `size` by `size`
    square), `RLEMapStorage` (a lazily filled hash map) and their common
    base `RLEStorage`, which forwards cell operations to the addressed
    column and caches the lowest and highest boundary. */
module Storage {
  import opened Java
  import opened Runs
  import opened Column

  /** The key of `RLEMapStorage`'s map. */
  datatype IntPos = IntPos(x: int, y: int)

  /** `IntPos.equals`: `None` is `null`. */
  function IntPosEquals(a: IntPos, obj: Option<IntPos>): (r: bool)
    ensures r <==> obj == Some(a)
  {
    match obj
    case None => false
    case Some(b) => if a.x != b.x then false else if a.y != b.y then false else true
  }

  /** `IntPos.hashCode`: `73 * (73 * 7 + x) + y` in `int` arithmetic. */
  function IntPosHash(p: IntPos): (r: int32)
    ensures (r as int - (73 * (73 * 7 + p.x) + p.y)) % 0x1_0000_0000 == 0
    ensures IsInt(73 * 7 + p.x) && IsInt(73 * (73 * 7 + p.x) + p.y) ==> r as int == 73 * (73 * 7 + p.x) + p.y
  {
    var hash := Wrap(73 * 7 + p.x);
    WrapCongruent(73 * 7 + p.x);
    WrapCongruent(73 * hash as int + p.y);
    HashSteps(hash as int - (73 * 7 + p.x), Wrap(73 * hash as int + p.y) as int - (73 * hash as int + p.y));
    Wrap(73 * hash as int + p.y)
  }

  /** Two wrap errors, the first scaled by the second step's 73, add up to
      a multiple of 2^32. */
  lemma HashSteps(d1: int, d2: int)
    requires d1 % 0x1_0000_0000 == 0 && d2 % 0x1_0000_0000 == 0
    ensures (d2 + 73 * d1) % 0x1_0000_0000 == 0
  {
    var k1 := d1 / 0x1_0000_0000;
    var k2 := d2 / 0x1_0000_0000;
    assert d2 + 73 * d1 == (k2 + 73 * k1) * 0x1_0000_0000;
  }

  /** Equal keys hash alike, which is what lets the map stand on value equality. */
  lemma HashConsistent(a: IntPos, b: IntPos)
    requires IntPosEquals(a, Some(b))
    ensures IntPosHash(a) == IntPosHash(b)
  {
  }

  /** Different keys can share a hash, so lookups rest on `equals`. */
  lemma HashCollision()
    ensures !IntPosEquals(IntPos(0, 73), Some(IntPos(1, 0)))
    ensures IntPosHash(IntPos(0, 73)) == IntPosHash(IntPos(1, 0))
  {
  }

  /** Every coordinate pair of a `size` by `size` square. */
  function Coords(size: int): set<IntPos> {
    set x: int, y: int | 0 <= x < size && 0 <= y < size :: IntPos(x, y)
  }

  /** The row-major index `size * x + y` of an in-range pair, which the
      constructor's `i / size` and `i % size` invert. */
  lemma {:induction false} IndexLayout(size: int, x: int, y: int)
    requires 0 <= x < size && 0 <= y < size
    ensures 0 <= size * x + y < size * size
    ensures (size * x + y) / size == x && (size * x + y) % size == y
  {
    MulLeftMono(size, x, size - 1);
    DivModOf(size * x + y, size, x, y);
  }

  lemma MulLeftMono(k: int, a: int, b: int)
    requires 0 <= k && a <= b
    ensures k * a <= k * b
  {
  }

  lemma DivModOf(n: int, d: int, q: int, r: int)
    requires 0 <= r < d && n == d * q + r
    ensures n / d == q && n % d == r
  {
    var q', r' := n / d, n % d;
    assert n == d * q' + r';
    if q > q' {
      assert d * (q - q') == d * q - d * q';
      MulLeftMono(d, 1, q - q');
    } else if q < q' {
      assert d * (q' - q) == d * q' - d * q;
      MulLeftMono(d, 1, q' - q);
    }
  }

  /** With a negative `size`, Java's `i / size` is never positive and
      `i % size` never negative, so no slot lies in the square. */
  lemma NegativeSlot(size: int, i: int)
    requires size < 0 <= i
    ensures JavaDiv(i, size) <= 0 && 0 <= JavaRem(i, size)
  {
    DivNonNegative(i, -size);
  }

  lemma DivNonNegative(a: int, d: int)
    requires 0 <= a && 0 < d
    ensures a / d >= 0
  {
    if a / d < 0 {
      assert a == d * (a / d) + a % d;
      MulLeftMono(d, a / d, -1);
    }
  }

  /** `i / size` and `i % size` take every index of the array to an
      in-range pair, and back. */
  lemma {:induction false} IndexCoords(size: int, i: int)
    requires 0 < size && 0 <= i < size * size
    ensures 0 <= i / size < size && 0 <= i % size < size
    ensures size * (i / size) + i % size == i
  {
    if i / size >= size {
      MulLeftMono(size, size, i / size);
    }
  }

  class RLEArrayStorage<V(==)> {
    const size: int
    const columns: array<RLEColumn?<V>>

    /** The layout the constructor builds: slot `i` holds the column at
        `(i / size, i % size)`, with Java's truncating division. A negative
        `size` still gets `size * size` slots, at coordinates no `columnAt`
        reaches. */
    ghost predicate Valid()
      reads this, columns
    {
      IsInt(size) && size * size <= MAX_INT && columns.Length == size * size
      && forall i :: 0 <= i < columns.Length ==>
           columns[i] != null && columns[i].x == JavaDiv(i, size) && columns[i].y == JavaRem(i, size)
    }

    /** Every slot of the array, each holding a fresh and empty column. */
    constructor (size: int)
      requires IsInt(size) && size * size <= MAX_INT
      ensures Valid() && this.size == size && fresh(columns)
      ensures forall i :: 0 <= i < columns.Length ==>
                fresh(columns[i]) && columns[i].data == [] && columns[i].Valid()
    {
      var n := size * size;
      var a := new RLEColumn?<V>[n];
      for i := 0 to n
        invariant forall j :: 0 <= j < i ==>
                    a[j] != null && fresh(a[j]) && a[j].x == JavaDiv(j, size) && a[j].y == JavaRem(j, size)
                    && a[j].data == [] && a[j].Valid()
      {
        a[i] := new RLEColumn(JavaDiv(i, size), JavaRem(i, size));
      }
      this.size := size;
      columns := a;
    }

    /** The columns by coordinates. */
    ghost function Cols(): (m: map<IntPos, RLEColumn<V>>)
      requires Valid()
      reads this, columns
      ensures m.Keys == Coords(size)
    {
      map p | p in Coords(size) :: At(p.x, p.y)
    }

    /** The column at an in-range pair. */
    function At(x: int, y: int): (c: RLEColumn<V>)
      requires Valid() && 0 <= x < size && 0 <= y < size
      reads this, columns
      ensures c.x == x && c.y == y
    {
      IndexLayout(size, x, y);
      columns[size * x + y]
    }

    /** `columnAt(x, y)`: `null` outside the square. */
    function ColumnAt(x: int, y: int): (c: RLEColumn?<V>)
      requires Valid()
      reads this, columns
      ensures c == null <==> IntPos(x, y) !in Coords(size)
      ensures c != null ==> c == Cols()[IntPos(x, y)] && c.x == x && c.y == y
    {
      if x < 0 || x >= size || y < 0 || y >= size then null else At(x, y)
    }

    /** Distinct coordinates of the square address distinct columns. */
    lemma ColumnsDistinct(p: IntPos, q: IntPos)
      requires Valid() && p in Coords(size) && q in Coords(size) && p != q
      ensures Cols()[p] != Cols()[q]
    {
    }

    /** `allColumns()`: every slot of the array, in index order. */
    method AllColumns() returns (cols: seq<RLEColumn<V>>)
      requires Valid()
      ensures |cols| == size * size
      ensures forall i :: 0 <= i < |cols| ==> cols[i] == columns[i]
      ensures 0 <= size ==> forall c :: c in cols <==> c in Cols().Values
      ensures size < 0 ==> Cols() == map[] && forall c :: c in cols ==> c.x <= 0 && 0 <= c.y
    {
      cols := [];
      for i := 0 to columns.Length
        invariant |cols| == i
        invariant forall j :: 0 <= j < i ==> cols[j] == columns[j]
      {
        cols := cols + [columns[i]];
      }
      if size < 0 {
        assert Coords(size) == {};
        forall c | c in cols ensures c.x <= 0 && 0 <= c.y {
          var i :| 0 <= i < |cols| && cols[i] == c;
          assert c.x == JavaDiv(i, size) && c.y == JavaRem(i, size);
          NegativeSlot(size, i);
        }
        return;
      }
      forall c | c in Cols().Values ensures c in cols {
        var p :| p in Cols() && Cols()[p] == c;
        IndexLayout(size, p.x, p.y);
        assert cols[size * p.x + p.y] == c;
      }
      forall c | c in cols ensures c in Cols().Values {
        var i :| 0 <= i < |cols| && cols[i] == c;
        IndexCoords(size, i);
        assert IntPos(i / size, i % size) in Coords(size);
        IndexLayout(size, i / size, i % size);
        assert Cols()[IntPos(i / size, i % size)] == c;
      }
    }
  }

  class RLEMapStorage<V(==)> {
    var columnMap: map<IntPos, RLEColumn<V>>

    /** Every column sits under its own coordinates. */
    ghost predicate Valid()
      reads this
    {
      forall p :: p in columnMap ==> columnMap[p].x == p.x && columnMap[p].y == p.y
    }

    constructor ()
      ensures Valid() && columnMap == map[]
    {
      columnMap := map[];
    }

    /** `columnAt(x, y)`: `putIfAbsent` of a new empty column, then `get`.
        It never returns `null`, and it only ever adds the key `(x, y)`. */
    method ColumnAt(x: int, y: int) returns (c: RLEColumn<V>)
      requires Valid()
      modifies this
      ensures Valid()
      ensures c.x == x && c.y == y && IntPos(x, y) in columnMap && c == columnMap[IntPos(x, y)]
      ensures IntPos(x, y) in old(columnMap) ==> columnMap == old(columnMap)
      ensures IntPos(x, y) !in old(columnMap) ==>
                fresh(c) && c.data == [] && c.Valid() && columnMap == old(columnMap)[IntPos(x, y) := c]
    {
      var created := new RLEColumn(x, y);
      if IntPos(x, y) !in columnMap {
        columnMap := columnMap[IntPos(x, y) := created];
      }
      c := columnMap[IntPos(x, y)];
    }

    /** `allColumns()`: the map's values, in the map's own order. */
    method AllColumns() returns (cols: seq<RLEColumn<V>>)
      requires Valid()
      ensures forall c :: c in cols <==> c in columnMap.Values
      ensures forall i, j :: 0 <= i < j < |cols| ==> IntPos(cols[i].x, cols[i].y) != IntPos(cols[j].x, cols[j].y)
    {
      cols := [];
      var keys := columnMap.Keys;
      ghost var done: set<IntPos> := {};
      while keys != {}
        invariant keys + done == columnMap.Keys && keys !! done
        invariant forall i :: 0 <= i < |cols| ==>
                    IntPos(cols[i].x, cols[i].y) in done && cols[i] == columnMap[IntPos(cols[i].x, cols[i].y)]
        invariant forall p :: p in done ==> columnMap[p] in cols
        invariant forall i, j :: 0 <= i < j < |cols| ==> IntPos(cols[i].x, cols[i].y) != IntPos(cols[j].x, cols[j].y)
        decreases keys
      {
        var p :| p in keys;
        cols := cols + [columnMap[p]];
        keys := keys - {p};
        done := done + {p};
      }
      forall c | c in columnMap.Values ensures c in cols {
        var p :| p in columnMap && columnMap[p] == c;
      }
    }
  }

  /** `out` holds, at every `int` cell, the first `n` runs of `sh` written
      over `target`. */
  ghost predicate Overlays<V>(out: seq<Entry<V>>, target: seq<Entry<V>>, sh: seq<Entry<V>>, n: nat) {
    1 <= n <= |sh| && forall w :: IsInt(w) ==> ValueAt(out, w) == OverlayValue(target, sh, n, w)
  }

  /** The body of `copyTo` for one source column `c` and its target `c2`:
      walk `c`'s entries from the bottom with `prev`, write the lowest run
      with `setRangeInfinite` when it is not empty, and every later run with
      `setRange` from just above `prev`. */
  method CopyColumn<V(==)>(c: RLEColumn<V>, c2: RLEColumn<V>, z: int)
    requires c != c2 && c.Valid() && c2.Valid()
    requires forall i :: 0 <= i < |c.data| ==> IsInt(c.data[i].pos + z)
    modifies c2
    ensures c2.Valid()
    ensures forall w :: IsInt(w) ==> ValueAt(c2.data, w) == Overlaid(old(c2.data), c.data, z, w)
  {
    ghost var target := c2.data;
    ghost var src := c.data;
    ghost var sh := Shift(src, z);
    var it := c.Iterator();
    var prev: Option<Entry<V>> := None;
    while it.HasNext()
      invariant fresh(it) && it.column == c && c.data == src && c2.Valid()
      invariant 0 <= it.pos <= |src|
      invariant it.pos == 0 ==> prev.None? && c2.data == target
      invariant it.pos > 0 ==> prev == Some(src[it.pos - 1])
      invariant it.pos > 0 ==> Overlays(c2.data, target, sh, it.pos)
      decreases |src| - it.pos
    {
      var e := CopyStep(it, c2, prev, z, src, target, sh);
      prev := Some(e);
    }
    assert it.pos == |src|;
    CopyComplete(target, src, z, sh, c2.data);
  }

  /** Once every run of `src` has been written, the target holds `src`
      laid over its old contents. */
  lemma CopyComplete<V>(target: seq<Entry<V>>, src: seq<Entry<V>>, z: int, sh: seq<Entry<V>>, out: seq<Entry<V>>)
    requires Ascending(src) && sh == Shift(src, z)
    requires src == [] ==> out == target
    requires src != [] ==> Overlays(out, target, sh, |src|)
    ensures forall w :: IsInt(w) ==> ValueAt(out, w) == Overlaid(target, src, z, w)
  {
    if src != [] {
      forall w | IsInt(w) ensures ValueAt(out, w) == Overlaid(target, src, z, w) {
        OverlayAll(target, src, z, w);
      }
    }
  }

  /** One turn of `copyTo`'s walk: take the next entry `e` and write the run
      it closes into `c2`. */
  method CopyStep<V(==)>(it: ColumnIterator<V>, c2: RLEColumn<V>, prev: Option<Entry<V>>, z: int,
                         ghost src: seq<Entry<V>>, ghost target: seq<Entry<V>>, ghost sh: seq<Entry<V>>)
                         returns (e: Entry<V>)
    requires it.column != c2 && it.column.data == src && c2.Valid()
    requires Ascending(src) && sh == Shift(src, z) && it.pos < |src|
    requires forall i :: 0 <= i < |src| ==> IsInt(src[i].pos + z)
    requires it.pos == 0 ==> prev.None? && c2.data == target
    requires it.pos > 0 ==> prev == Some(src[it.pos - 1]) && Overlays(c2.data, target, sh, it.pos)
    modifies it, c2
    ensures it.column.data == src
    ensures it.pos == old(it.pos) + 1 && e == src[old(it.pos)]
    ensures c2.Valid() && Overlays(c2.data, target, sh, old(it.pos) + 1)
  {
    ghost var k := it.pos;
    e := Advance(it, src);
    WriteEntry(c2, prev, e, z, src, target, sh, k);
  }

  /** `iterator.next()` inside the entries `src` of the walked column: the
      entry under the cursor, which then advances. */
  method Advance<V(==)>(it: ColumnIterator<V>, ghost src: seq<Entry<V>>) returns (e: Entry<V>)
    requires it.column.data == src && it.pos < |src|
    modifies it
    ensures it.pos == old(it.pos) + 1 && e == src[old(it.pos)]
  {
    var next := it.Next();
    e := next.value;
  }

  /** The shifted entry at `k`, and the one before it, in `int` range. */
  lemma ShiftedAt<V>(src: seq<Entry<V>>, z: int, sh: seq<Entry<V>>, k: nat)
    requires Ascending(src) && sh == Shift(src, z) && k < |src|
    requires forall i :: 0 <= i < |src| ==> IsInt(src[i].pos + z)
    ensures Ascending(sh) && k < |sh|
    ensures sh[k] == Entry(src[k].pos + z, src[k].value) && IsInt(src[k].pos + z)
    ensures k > 0 ==> sh[k - 1] == Entry(src[k - 1].pos + z, src[k - 1].value) && IsInt(src[k - 1].pos + z)
  {
  }

  /** The write of one turn of `copyTo`'s walk, for the entry `e` at index
      `k` of the source entries `src`: the lowest entry goes through
      `setRangeInfinite`, a later one through `setRange` from just above the
      entry `prev` before it. */
  method WriteEntry<V(==)>(c2: RLEColumn<V>, prev: Option<Entry<V>>, e: Entry<V>, z: int,
                           ghost src: seq<Entry<V>>, ghost target: seq<Entry<V>>, ghost sh: seq<Entry<V>>, ghost k: nat)
    requires c2.Valid() && Ascending(src) && sh == Shift(src, z) && k < |src| && e == src[k]
    requires forall i :: 0 <= i < |src| ==> IsInt(src[i].pos + z)
    requires k == 0 ==> prev.None? && c2.data == target
    requires k > 0 ==> prev == Some(src[k - 1]) && Overlays(c2.data, target, sh, k)
    modifies c2
    ensures c2.Valid()
    ensures Overlays(c2.data, target, sh, k + 1)
  {
    ShiftedAt(src, z, sh, k);
    if prev.None? {
      WriteLowestRun(c2, e, z, target, sh);
    } else {
      WriteRun(c2, prev.value, e, z, target, sh, k);
    }
  }

  /** The first step of `copyTo`'s walk: `setRangeInfinite` with the lowest
      entry, only when that entry is not empty. */
  method WriteLowestRun<V(==)>(c2: RLEColumn<V>, e: Entry<V>, z: int,
                               ghost target: seq<Entry<V>>, ghost sh: seq<Entry<V>>)
    requires c2.Valid() && c2.data == target && Ascending(sh) && sh != []
    requires sh[0] == Entry(e.pos + z, e.value) && IsInt(e.pos + z)
    modifies c2
    ensures c2.Valid()
    ensures Overlays(c2.data, target, sh, 1)
  {
    if e.value.Some? {
      c2.SetRangeInfinite(e.pos + z, e.value);
      FirstOverlays(target, sh, c2.data);
    } else {
      FirstOverlays(target, sh, c2.data);
    }
  }

  /** After the first step, the column overlays the lowest entry. */
  lemma FirstOverlays<V>(target: seq<Entry<V>>, sh: seq<Entry<V>>, out: seq<Entry<V>>)
    requires Ascending(target) && Ascending(sh) && sh != []
    requires out == if sh[0].value.Some? then SetRangeInfiniteRuns(target, sh[0].pos, sh[0].value) else target
    ensures Overlays(out, target, sh, 1)
  {
    forall w | IsInt(w) ensures ValueAt(out, w) == OverlayValue(target, sh, 1, w) {
      OverlayFirst(target, sh, w);
    }
  }

  /** A later step of `copyTo`'s walk: `setRange` from just above `prev` up
      to `e`, with `e`'s value. */
  method WriteRun<V(==)>(c2: RLEColumn<V>, prev: Entry<V>, e: Entry<V>, z: int,
                         ghost target: seq<Entry<V>>, ghost sh: seq<Entry<V>>, ghost n: nat)
    requires c2.Valid() && Ascending(sh) && 1 <= n < |sh|
    requires sh[n - 1] == Entry(prev.pos + z, prev.value) && sh[n] == Entry(e.pos + z, e.value)
    requires IsInt(prev.pos + z) && IsInt(e.pos + z)
    requires Overlays(c2.data, target, sh, n)
    modifies c2
    ensures c2.Valid()
    ensures Overlays(c2.data, target, sh, n + 1)
  {
    ghost var cur := c2.data;
    var lo, hi := prev.pos + z + 1, e.pos + z;
    assert lo == sh[n - 1].pos + 1 && hi == sh[n].pos && e.value == sh[n].value;
    assert sh[n - 1].pos < sh[n].pos;
    var r := c2.SetRange(lo, hi, e.value);
    assert r.Ok?;
    assert c2.data == SetRangeRuns(cur, lo, hi, e.value);
    forall w | IsInt(w) ensures ValueAt(c2.data, w) == OverlayValue(target, sh, n + 1, w) {
      OverlayNext(cur, target, sh, n, w, lo, hi, e.value);
    }
  }
}
