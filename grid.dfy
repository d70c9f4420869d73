/** `RLEStorage`, the base of both grids: it forwards each cell operation
    to the column that `columnAt(x, y)` addresses, caches the lowest and
    highest boundary of all columns behind a dirty flag, and overlays one
    grid onto another in `copyTo`.

    The grid is kept as the entries of its columns by coordinates. A dense
    grid (`RLEArrayStorage`) has a column at every pair of its square and
    answers `null` outside it, and every operation that dereferences that
    `null` ends in `Err(NullPointer)`; a sparse grid (`RLEMapStorage`)
    creates an empty column on first use. */
module Grid {
  import opened Java
  import opened Runs
  import opened Column
  import opened Storage

  /** The entries at `p`; a column that does not exist reads as empty. */
  function Cell<V>(m: map<IntPos, seq<Entry<V>>>, p: IntPos): seq<Entry<V>> {
    if p in m then m[p] else []
  }

  /** Every column sits at `int` coordinates and is in canonical form. */
  ghost predicate WellFormed<V>(m: map<IntPos, seq<Entry<V>>>) {
    forall p :: p in m ==> IsInt(p.x) && IsInt(p.y) && Canonical(m[p]) && AllInt(m[p])
  }

  /** Whether `p` lies inside a dense square of side `size`. */
  predicate InSquare(p: IntPos, size: int) {
    0 <= p.x < size && 0 <= p.y < size
  }

  /** Whether a dense grid of side `size` keeps a column at `p`: the pairs
      `(i / size, i % size)` of its slots, with Java's truncating division.
      For a negative `size` these lie in `(size, 0] x [0, -size)`, which no
      `columnAt` reaches. */
  predicate Slot(p: IntPos, size: int) {
    if 0 <= size then InSquare(p, size) else size < p.x <= 0 && 0 <= p.y < -size
  }

  /** The pairs `Slot` admits. */
  function Slots(size: int): (s: set<IntPos>)
    ensures forall p :: p in s <==> Slot(p, size)
  {
    var s := if 0 <= size then Coords(size)
             else set x: int, y: int | size < x <= 0 && 0 <= y < -size :: IntPos(x, y);
    assert forall p :: Slot(p, size) ==> p == IntPos(p.x, p.y);
    s
  }

  /** The object layout of `Storage.RLEArrayStorage` agrees with the dense
      grid here: every slot of its array holds the column of a `Slot` pair,
      and its `columnAt` answers `null` exactly where `OutsideOf` says. */
  lemma {:induction false} ArraySlots<V>(a: RLEArrayStorage<V>)
    requires a.Valid()
    ensures forall i :: 0 <= i < a.columns.Length ==> Slot(IntPos(a.columns[i].x, a.columns[i].y), a.size)
    ensures forall x, y :: a.ColumnAt(x, y) == null <==> OutsideOf(true, a.size, IntPos(x, y))
  {
    forall i | 0 <= i < a.columns.Length
      ensures Slot(IntPos(a.columns[i].x, a.columns[i].y), a.size)
    {
      if a.size < 0 {
        NegativeSlot(a.size, i);
        assert a.size * a.size == -a.size * -a.size;
        IndexCoords(-a.size, i);
      } else {
        IndexCoords(a.size, i);
      }
    }
  }

  /** Whether `columnAt(x, y)` answers `null`: only a dense grid does, and
      only outside its square. */
  predicate OutsideOf(dense: bool, size: int, p: IntPos) {
    dense && !InSquare(p, size)
  }

  /** The columns after `columnAt(p)`: a missing column is created empty
      unless the grid answers `null`. */
  function Created<V>(m: map<IntPos, seq<Entry<V>>>, p: IntPos, outside: bool): (r: map<IntPos, seq<Entry<V>>>)
    ensures forall q :: Cell(r, q) == Cell(m, q)
    ensures outside ==> r == m
    ensures !outside ==> p in r && r.Keys == m.Keys + {p}
  {
    if outside || p in m then m else m[p := []]
  }

  /** The shape of a grid's columns: well formed, and for a dense grid
      exactly the pairs of its square. */
  ghost predicate Shaped<V>(m: map<IntPos, seq<Entry<V>>>, dense: bool, size: int) {
    WellFormed(m) && (dense ==> forall p :: p in m <==> Slot(p, size))
  }

  /** Writing canonical entries `s` back into the column at `p`, which
      `columnAt` has just created or found, keeps the shape. */
  lemma WriteBack<V>(m: map<IntPos, seq<Entry<V>>>, dense: bool, size: int, p: IntPos, s: seq<Entry<V>>)
    requires Shaped(m, dense, size) && !OutsideOf(dense, size, p)
    requires IsInt(p.x) && IsInt(p.y) && Canonical(s) && AllInt(s)
    ensures Created(m, p, false)[p := s] == m[p := s]
    ensures Shaped(m[p := s], dense, size)
  {
  }

  /** `set(x, y, z, t)` makes cell `z` of column `p` read `t` and leaves
      every other cell of the grid unchanged. */
  lemma SetCellValues<V>(m: map<IntPos, seq<Entry<V>>>, p: IntPos, z: int, t: Option<V>, s: seq<Entry<V>>)
    requires WellFormed(m) && IsInt(z) && s == SetRuns(Cell(m, p), z, t)
    ensures forall q, w :: IsInt(w) ==>
              ValueAt(Cell(m[p := s], q), w) == if q == p && w == z then t else ValueAt(Cell(m, q), w)
  {
    forall q, w | IsInt(w)
      ensures ValueAt(Cell(m[p := s], q), w) == if q == p && w == z then t else ValueAt(Cell(m, q), w)
    {
      CellWritten(m, p, s, q);
      if q == p {
        SetRunsValue(Cell(m, p), z, t, w);
      }
    }
  }

  /** `setRange(x, y, zMin, zMax, t)` makes cells `zMin` to `zMax` of column
      `p` read `t` and leaves every other cell of the grid unchanged. */
  lemma SetRangeCellValues<V>(m: map<IntPos, seq<Entry<V>>>, p: IntPos, lo: int, hi: int, t: Option<V>,
                              s: seq<Entry<V>>)
    requires WellFormed(m) && IsInt(lo) && lo <= hi && s == SetRangeRuns(Cell(m, p), lo, hi, t)
    ensures forall q, w :: IsInt(w) ==>
              ValueAt(Cell(m[p := s], q), w) == if q == p && lo <= w <= hi then t else ValueAt(Cell(m, q), w)
  {
    forall q, w | IsInt(w)
      ensures ValueAt(Cell(m[p := s], q), w) == if q == p && lo <= w <= hi then t else ValueAt(Cell(m, q), w)
    {
      CellWritten(m, p, s, q);
      if q == p {
        SetRangeRunsValue(Cell(m, p), lo, hi, t, w);
      }
    }
  }

  /** `setRangeInfinite(x, y, zMax, t)` makes every cell of column `p` at or
      below `zMax` read `t` and leaves every other cell unchanged. */
  lemma SetRangeInfiniteCellValues<V>(m: map<IntPos, seq<Entry<V>>>, p: IntPos, hi: int, t: Option<V>,
                                      s: seq<Entry<V>>)
    requires WellFormed(m) && s == SetRangeInfiniteRuns(Cell(m, p), hi, t)
    ensures forall q, w :: IsInt(w) ==>
              ValueAt(Cell(m[p := s], q), w) == if q == p && w <= hi then t else ValueAt(Cell(m, q), w)
  {
    forall q, w | IsInt(w)
      ensures ValueAt(Cell(m[p := s], q), w) == if q == p && w <= hi then t else ValueAt(Cell(m, q), w)
    {
      CellWritten(m, p, s, q);
      if q == p {
        SetRangeInfiniteRunsValue(Cell(m, p), hi, t, w);
      }
    }
  }

  /** After a write at `p`, no other column changes. */
  lemma CellWritten<V>(m: map<IntPos, seq<Entry<V>>>, p: IntPos, s: seq<Entry<V>>, q: IntPos)
    ensures Cell(m[p := s], q) == if q == p then s else Cell(m, q)
  {
  }

  /** The position of a column's lowest entry, `minPos`. */
  function Lowest<V>(s: seq<Entry<V>>): int
    requires s != []
  {
    s[0].pos
  }

  /** The position of a column's highest entry, `maxPos`. */
  function Highest<V>(s: seq<Entry<V>>): int
    requires s != []
  {
    s[|s| - 1].pos
  }

  /** What `recomputeMinMax` leaves in `minZ` and `maxZ`: the least lowest
      entry and the greatest highest entry over the non-empty columns, or
      `Integer.MAX_VALUE` and `Integer.MIN_VALUE` when every column is empty. */
  ghost predicate Bounds<V>(m: map<IntPos, seq<Entry<V>>>, lo: int, hi: int) {
    if forall p :: p in m ==> m[p] == [] then lo == MAX_INT && hi == MIN_INT
    else
      && (forall p :: p in m && m[p] != [] ==> lo <= Lowest(m[p]) && Highest(m[p]) <= hi)
      && (exists p :: p in m && m[p] != [] && Lowest(m[p]) == lo)
      && (exists p :: p in m && m[p] != [] && Highest(m[p]) == hi)
  }

  /** Creating an empty column moves neither boundary. */
  lemma BoundsCreated<V>(m: map<IntPos, seq<Entry<V>>>, p: IntPos, outside: bool, lo: int, hi: int)
    ensures Bounds(Created(m, p, outside), lo, hi) == Bounds(m, lo, hi)
  {
    var r := Created(m, p, outside);
    assert forall q :: q in r && r[q] != [] <==> q in m && m[q] != [];
  }

  /** Above the cached maximum, every cell of the grid is empty. */
  lemma AboveBoundsEmpty<V>(m: map<IntPos, seq<Entry<V>>>, lo: int, hi: int, q: IntPos, w: int)
    requires WellFormed(m) && Bounds(m, lo, hi) && hi < w
    ensures ValueAt(Cell(m, q), w) == None
  {
    var s := Cell(m, q);
    if s != [] {
      IndexAboveUnique(s, w, |s|);
    }
  }

  /** At or below the cached minimum, every column reads as its lowest run. */
  lemma BelowBoundsUniform<V>(m: map<IntPos, seq<Entry<V>>>, lo: int, hi: int, q: IntPos, w: int)
    requires WellFormed(m) && Bounds(m, lo, hi) && w <= lo
    ensures ValueAt(Cell(m, q), w) == HeadValue(Cell(m, q))
  {
    var s := Cell(m, q);
    if s != [] {
      IndexAboveUnique(s, w, 0);
    }
  }

  /** When some column is not empty, the cached maximum is a cell that
      holds a value. */
  lemma BoundsTight<V>(m: map<IntPos, seq<Entry<V>>>, lo: int, hi: int, q: IntPos)
    requires WellFormed(m) && Bounds(m, lo, hi) && Cell(m, q) != []
    ensures exists p :: p in m && ValueAt(m[p], hi).Some?
  {
    var p :| p in m && m[p] != [] && Highest(m[p]) == hi;
    TopIsFull(m[p]);
  }

  /** The source coordinates that `copyTo`'s offsets `(x, y)` take to `q`,
      and the target coordinates `c.x + x`, `c.y + y` in `int` arithmetic. */
  function Origin(q: IntPos, x: int, y: int): IntPos {
    IntPos(Wrap(q.x - x) as int, Wrap(q.y - y) as int)
  }

  function Target(p: IntPos, x: int, y: int): IntPos {
    IntPos(Wrap(p.x + x) as int, Wrap(p.y + y) as int)
  }

  /** Adding an offset and taking it away again, both with wrap-around,
      gives back an `int`. */
  lemma WrapBack(a: int, x: int)
    requires IsInt(a)
    ensures Wrap(Wrap(a + x) as int - x) as int == a
  {
    var k := (a + x + 0x8000_0000) / 0x1_0000_0000;
    assert Wrap(a + x) as int == a + x - k * 0x1_0000_0000;
    assert Wrap(a + x) as int - x == a + (-k) * 0x1_0000_0000;
  }

  /** Distinct source columns go to distinct target columns. */
  lemma OriginTarget(p: IntPos, x: int, y: int)
    requires IsInt(p.x) && IsInt(p.y)
    ensures Origin(Target(p, x, y), x, y) == p
  {
    WrapBack(p.x, x);
    WrapBack(p.y, y);
  }

  /** The columns of `src` at the coordinates in `done`. */
  ghost function Restrict<V>(src: map<IntPos, seq<Entry<V>>>, done: set<IntPos>): (r: map<IntPos, seq<Entry<V>>>)
    ensures r.Keys == src.Keys * done
  {
    map p | p in src && p in done :: src[p]
  }

  /** Cell `w` of target column `q` after `copyTo` has laid every column of
      `src` over `target`: the column the offsets bring to `q`, if there is
      one and `q` is not outside the target, overlays it as `Overlaid` says. */
  ghost function CopiedValue<V>(target: map<IntPos, seq<Entry<V>>>, src: map<IntPos, seq<Entry<V>>>,
                                x: int, y: int, z: int, dense: bool, size: int, q: IntPos, w: int): Option<V> {
    var p := Origin(q, x, y);
    if p in src && Target(p, x, y) == q && !OutsideOf(dense, size, q)
    then Overlaid(Cell(target, q), src[p], z, w)
    else ValueAt(Cell(target, q), w)
  }

  /** The pairs of the target grid that `copyTo` with offsets `(x, y)`
      addresses from the source columns at `keys`, less those the target
      answers `null` for: after the copy the target has a column at each. */
  ghost function Targets(keys: set<IntPos>, x: int, y: int, dense: bool, size: int): set<IntPos> {
    set p | p in keys && !OutsideOf(dense, size, Target(p, x, y)) :: Target(p, x, y)
  }

  /** One more source column adds its target, unless that is `null`. */
  lemma TargetsStep(done: set<IntPos>, p: IntPos, x: int, y: int, dense: bool, size: int)
    ensures forall r :: r in Targets(done + {p}, x, y, dense, size) <==>
              r in Targets(done, x, y, dense, size) || (r == Target(p, x, y) && !OutsideOf(dense, size, r))
  {
  }

  /** One column of `copyTo`: after the column at `p` is laid over its
      target, the target holds the overlay of every column done so far. */
  lemma CopyStepValues<V>(start: map<IntPos, seq<Entry<V>>>, src: map<IntPos, seq<Entry<V>>>,
                          done: set<IntPos>, p: IntPos, x: int, y: int, z: int, dense: bool, size: int,
                          before: map<IntPos, seq<Entry<V>>>, after: map<IntPos, seq<Entry<V>>>)
    requires WellFormed(src) && p in src && p !in done
    requires forall q, w :: IsInt(w) ==>
               ValueAt(Cell(before, q), w) == CopiedValue(start, Restrict(src, done), x, y, z, dense, size, q, w)
    requires forall q :: q != Target(p, x, y) ==> Cell(after, q) == Cell(before, q)
    requires OutsideOf(dense, size, Target(p, x, y)) ==> after == before
    requires !OutsideOf(dense, size, Target(p, x, y)) ==> forall w :: IsInt(w) ==>
               ValueAt(Cell(after, Target(p, x, y)), w) == Overlaid(Cell(before, Target(p, x, y)), src[p], z, w)
    ensures forall q, w :: IsInt(w) ==>
              ValueAt(Cell(after, q), w) == CopiedValue(start, Restrict(src, done + {p}), x, y, z, dense, size, q, w)
  {
    var t := Target(p, x, y);
    OriginTarget(p, x, y);
    if !OutsideOf(dense, size, t) {
      forall v | IsInt(v) ensures ValueAt(Cell(before, t), v) == ValueAt(Cell(start, t), v) {
        NotYetCopied(start, src, done, x, y, z, dense, size, before, t, v);
      }
    }
    forall q, w | IsInt(w)
      ensures ValueAt(Cell(after, q), w) == CopiedValue(start, Restrict(src, done + {p}), x, y, z, dense, size, q, w)
    {
      CopyPointValue(start, src, done, p, x, y, z, dense, size, before, after, q, w);
    }
  }

  /** A target column whose source is not yet done still holds its old cells. */
  lemma NotYetCopied<V>(start: map<IntPos, seq<Entry<V>>>, src: map<IntPos, seq<Entry<V>>>,
                        done: set<IntPos>, x: int, y: int, z: int, dense: bool, size: int,
                        before: map<IntPos, seq<Entry<V>>>, t: IntPos, v: int)
    requires Origin(t, x, y) !in done
    requires ValueAt(Cell(before, t), v) == CopiedValue(start, Restrict(src, done), x, y, z, dense, size, t, v)
    ensures ValueAt(Cell(before, t), v) == ValueAt(Cell(start, t), v)
  {
  }

  /** `CopyStepValues` at one cell. */
  lemma CopyPointValue<V>(start: map<IntPos, seq<Entry<V>>>, src: map<IntPos, seq<Entry<V>>>,
                          done: set<IntPos>, p: IntPos, x: int, y: int, z: int, dense: bool, size: int,
                          before: map<IntPos, seq<Entry<V>>>, after: map<IntPos, seq<Entry<V>>>, q: IntPos, w: int)
    requires p in src && p !in done && IsInt(w) && Origin(Target(p, x, y), x, y) == p
    requires ValueAt(Cell(before, q), w) == CopiedValue(start, Restrict(src, done), x, y, z, dense, size, q, w)
    requires q != Target(p, x, y) ==> Cell(after, q) == Cell(before, q)
    requires OutsideOf(dense, size, Target(p, x, y)) ==> after == before
    requires q == Target(p, x, y) && !OutsideOf(dense, size, q) ==>
               ValueAt(Cell(after, q), w) == Overlaid(Cell(before, q), src[p], z, w)
               && forall v :: IsInt(v) ==> ValueAt(Cell(before, q), v) == ValueAt(Cell(start, q), v)
    ensures ValueAt(Cell(after, q), w) == CopiedValue(start, Restrict(src, done + {p}), x, y, z, dense, size, q, w)
  {
    if q == Target(p, x, y) && !OutsideOf(dense, size, q) {
      OverlaidSameTarget(Cell(before, q), Cell(start, q), src[p], z, w);
    }
  }

  /** An overlay reads its target only at `int` cells. */
  lemma OverlaidSameTarget<V>(a: seq<Entry<V>>, b: seq<Entry<V>>, src: seq<Entry<V>>, z: int, w: int)
    requires IsInt(w) && forall v :: IsInt(v) ==> ValueAt(a, v) == ValueAt(b, v)
    ensures Overlaid(a, src, z, w) == Overlaid(b, src, z, w)
  {
  }

  /** `copyTo` leaves the flag of its target down, so a cache that was
      right before the copy can be wrong after it. Here the target holds
      one column whose highest entry is 5, and the source lays a column
      reaching up to 10 over it: any grid the copy can produce no longer
      has 5 as its highest boundary. */
  lemma CopyToStaleCache<V>(v: V, after: map<IntPos, seq<Entry<V>>>)
    requires WellFormed(after)
    requires forall q, w :: IsInt(w) ==>
               ValueAt(Cell(after, q), w)
               == CopiedValue(map[IntPos(0, 0) := [Entry(5, Some(v))]], map[IntPos(0, 0) := [Entry(10, Some(v))]],
                              0, 0, 0, false, 0, q, w)
    ensures Bounds(map[IntPos(0, 0) := [Entry(5, Some(v))]], 5, 5)
    ensures !Bounds(after, 5, 5)
  {
    var o := IntPos(0, 0);
    var before := map[o := [Entry(5, Some(v))]];
    assert before[o] != [] && Lowest(before[o]) == 5 && Highest(before[o]) == 5;
    assert Origin(o, 0, 0) == o && Target(o, 0, 0) == o;
    var src := map[o := [Entry(10, Some(v))]];
    assert ValueAt(src[o], 10 - 0) == Some(v);
    assert Overlaid(Cell(before, o), src[o], 0, 10) == Some(v);
    assert CopiedValue(before, src, 0, 0, 0, false, 0, o, 10) == Some(v);
    if Bounds(after, 5, 5) {
      AboveBoundsEmpty(after, 5, 5, o, 10);
    }
  }

  /** The scan of `recomputeMinMax` over the columns `m`, in any order:
      start from `Integer.MAX_VALUE` and `Integer.MIN_VALUE` and fold in
      `Math.min` of every `minPos` and `Math.max` of every `maxPos` of the
      non-empty columns. */
  method ScanBounds<V>(m: map<IntPos, seq<Entry<V>>>) returns (lo: int, hi: int)
    requires WellFormed(m)
    ensures Bounds(m, lo, hi)
  {
    lo, hi := MAX_INT, MIN_INT;
    var keys := m.Keys;
    ghost var done: set<IntPos> := {};
    ghost var seen := false;
    ghost var low, high: IntPos := IntPos(0, 0), IntPos(0, 0);
    while keys != {}
      invariant keys + done == m.Keys && keys !! done
      invariant forall p :: p in done && m[p] != [] ==> lo <= Lowest(m[p]) && Highest(m[p]) <= hi
      invariant !seen ==> lo == MAX_INT && hi == MIN_INT && forall p :: p in done ==> m[p] == []
      invariant seen ==> low in done && m[low] != [] && Lowest(m[low]) == lo
      invariant seen ==> high in done && m[high] != [] && Highest(m[high]) == hi
      decreases keys
    {
      var p :| p in keys;
      var c := m[p];
      if c != [] {
        if !seen || Lowest(c) < lo {
          low := p;
        }
        if !seen || Highest(c) > hi {
          high := p;
        }
        lo := Min(lo, Lowest(c));
        hi := Max(hi, Highest(c));
        seen := true;
      }
      keys := keys - {p};
      done := done + {p};
    }
  }

  class RLEStorage<V(==)> {
    /** Whether this is an `RLEArrayStorage` of side `size`, rather than an `RLEMapStorage`. */
    const dense: bool
    const size: int
    /** The entries of every column that exists, by coordinates. */
    var cells: map<IntPos, seq<Entry<V>>>
    var maxZ: int
    var minZ: int
    var shouldRecomputeMinMax: bool

    ghost predicate Valid()
      reads this
    {
      Shaped(cells, dense, size)
    }

    /** What the dirty flag promises: a clear flag means the cache is right. */
    ghost predicate Coherent()
      reads this
    {
      !shouldRecomputeMinMax ==> Bounds(cells, minZ, maxZ)
    }

    predicate Outside(x: int, y: int)
      reads this
    {
      OutsideOf(dense, size, IntPos(x, y))
    }

    /** `new RLEArrayStorage(size)`: an empty column in every slot, which
        for a non-negative `size` is every pair of the square. */
    constructor Dense(size: int)
      requires IsInt(size) && size * size <= MAX_INT
      ensures dense && this.size == size && shouldRecomputeMinMax && Valid()
      ensures cells.Keys == Slots(size)
      ensures forall p :: Cell(cells, p) == []
    {
      dense := true;
      this.size := size;
      cells := map p | p in Slots(size) :: [];
      shouldRecomputeMinMax := true;
    }

    /** `new RLEMapStorage()`: no column yet. */
    constructor Sparse()
      ensures !dense && shouldRecomputeMinMax && Valid()
      ensures cells == map[]
    {
      dense := false;
      size := 0;
      cells := map[];
      shouldRecomputeMinMax := true;
    }

    /** `columnAt(x, y)`: the column handed out holds the entries at `(x, y)`. */
    method ColumnAt(x: int, y: int) returns (c: RLEColumn?<V>)
      requires Valid() && IsInt(x) && IsInt(y)
      modifies this`cells
      ensures Valid()
      ensures cells == Created(old(cells), IntPos(x, y), Outside(x, y))
      ensures c == null <==> Outside(x, y)
      ensures c != null ==> fresh(c) && c.x == x && c.y == y && c.data == cells[IntPos(x, y)] && c.Valid()
    {
      var p := IntPos(x, y);
      if Outside(x, y) {
        return null;
      }
      if p !in cells {
        cells := cells[p := []];
      }
      c := new RLEColumn(x, y);
      c.data := cells[p];
    }

    /** `columnIterator(x, y)`: the iterator of the addressed column. */
    method ColumnIteratorAt(x: int, y: int) returns (r: Result<ColumnIterator<V>>)
      requires Valid() && IsInt(x) && IsInt(y)
      modifies this`cells
      ensures Valid() && cells == Created(old(cells), IntPos(x, y), Outside(x, y))
      ensures r.Err? <==> Outside(x, y)
      ensures r.Err? ==> r.error == NullPointer
      ensures r.Ok? ==> fresh(r.value) && r.value.column.data == cells[IntPos(x, y)] && r.value.pos == 0
    {
      var c := ColumnAt(x, y);
      if c == null {
        return Err(NullPointer);
      }
      var it := c.Iterator();
      return Ok(it);
    }

    /** `get(x, y, z)`: the value of one cell. */
    method Get(x: int, y: int, z: int) returns (r: Result<Option<V>>)
      requires Valid() && IsInt(x) && IsInt(y) && IsInt(z)
      modifies this`cells
      ensures Valid() && cells == Created(old(cells), IntPos(x, y), Outside(x, y))
      ensures r.Err? <==> Outside(x, y)
      ensures r.Err? ==> r.error == NullPointer
      ensures r.Ok? ==> r.value == ValueAt(Cell(old(cells), IntPos(x, y)), z)
      ensures old(Coherent()) ==> Coherent()
    {
      var c := ColumnAt(x, y);
      BoundsCreated(old(cells), IntPos(x, y), Outside(x, y), minZ, maxZ);
      if c == null {
        return Err(NullPointer);
      }
      var v := c.Get(z);
      return Ok(v);
    }

    /** `rangeEquals(x, y, zMin, zMax, t)`: whether every cell from `zMin`
        to `zMax` holds `t`, with the column's own exception. */
    method RangeEquals(x: int, y: int, zMin: int, zMax: int, t: Option<V>) returns (r: Result<bool>)
      requires Valid() && IsInt(x) && IsInt(y) && IsInt(zMin) && IsInt(zMax)
      modifies this`cells
      ensures Valid() && cells == Created(old(cells), IntPos(x, y), Outside(x, y))
      ensures Outside(x, y) ==> r == Err(NullPointer)
      ensures !Outside(x, y) ==> r.Err? ==> r.error == IndexOutOfBounds
      ensures !Outside(x, y) ==>
                (r.Err? <==> IndexAbove(Cell(old(cells), IntPos(x, y)), zMin) == IndexAbove(Cell(old(cells), IntPos(x, y)), zMax)
                               == |Cell(old(cells), IntPos(x, y))| && t.Some?)
      ensures !Outside(x, y) && r.Ok? && zMin <= zMax ==>
                (r.value <==> forall w :: zMin <= w <= zMax ==> ValueAt(Cell(old(cells), IntPos(x, y)), w) == t)
      ensures old(Coherent()) ==> Coherent()
    {
      var c := ColumnAt(x, y);
      BoundsCreated(old(cells), IntPos(x, y), Outside(x, y), minZ, maxZ);
      if c == null {
        return Err(NullPointer);
      }
      assert c.data == Cell(old(cells), IntPos(x, y));
      r := c.RangeEquals(zMin, zMax, t);
    }

    /** `set(x, y, z, t)`: the flag is raised only when the write happened. */
    method Set(x: int, y: int, z: int, t: Option<V>) returns (r: Result<()>)
      requires Valid() && IsInt(x) && IsInt(y) && IsInt(z)
      modifies this`cells, this`shouldRecomputeMinMax
      ensures Valid()
      ensures r.Err? <==> Outside(x, y)
      ensures r.Err? ==> r.error == NullPointer && cells == old(cells)
                         && shouldRecomputeMinMax == old(shouldRecomputeMinMax)
      ensures r.Ok? ==> shouldRecomputeMinMax
      ensures r.Ok? ==> forall q, w :: IsInt(w) ==>
                ValueAt(Cell(cells, q), w) == if q == IntPos(x, y) && w == z then t else ValueAt(Cell(old(cells), q), w)
      ensures r.Ok? ==> cells.Keys == old(cells).Keys + {IntPos(x, y)}
    {
      if Outside(x, y) {
        return Err(NullPointer);
      }
      var p := IntPos(x, y);
      var s := SetRuns(Cell(cells, p), z, t);
      SetRunsAllInt(Cell(cells, p), z, t);
      SetCellValues(cells, p, z, t, s);
      Write(p, s);
      shouldRecomputeMinMax := true;
      return Ok(());
    }

    /** `setRange(x, y, zMin, zMax, t)`: the column throws when `zMin > zMax`,
        and then the flag stays as it was. */
    method SetRange(x: int, y: int, zMin: int, zMax: int, t: Option<V>) returns (r: Result<()>)
      requires Valid() && IsInt(x) && IsInt(y) && IsInt(zMin) && IsInt(zMax)
      modifies this`cells, this`shouldRecomputeMinMax
      ensures Valid()
      ensures Outside(x, y) ==> r == Err(NullPointer)
      ensures !Outside(x, y) ==> (r.Err? <==> zMin > zMax) && (r.Err? ==> r.error == IllegalArgument)
      ensures r.Err? ==> Cell(cells, IntPos(x, y)) == Cell(old(cells), IntPos(x, y))
                         && shouldRecomputeMinMax == old(shouldRecomputeMinMax)
      ensures r.Err? ==> cells == Created(old(cells), IntPos(x, y), Outside(x, y))
      ensures r.Ok? ==> shouldRecomputeMinMax
      ensures r.Ok? ==> forall q, w :: IsInt(w) ==>
                ValueAt(Cell(cells, q), w) == if q == IntPos(x, y) && zMin <= w <= zMax then t else ValueAt(Cell(old(cells), q), w)
      ensures r.Ok? ==> cells.Keys == old(cells).Keys + {IntPos(x, y)}
    {
      if Outside(x, y) {
        return Err(NullPointer);
      }
      var p := IntPos(x, y);
      if zMin > zMax {
        Touch(p);
        return Err(IllegalArgument);
      }
      var s := SetRangeRuns(Cell(cells, p), zMin, zMax, t);
      SetRangeRunsAllInt(Cell(cells, p), zMin, zMax, t);
      SetRangeCellValues(cells, p, zMin, zMax, t, s);
      Write(p, s);
      shouldRecomputeMinMax := true;
      return Ok(());
    }

    /** `setRangeInfinite(x, y, zMax, t)`. */
    method SetRangeInfinite(x: int, y: int, zMax: int, t: Option<V>) returns (r: Result<()>)
      requires Valid() && IsInt(x) && IsInt(y) && IsInt(zMax)
      modifies this`cells, this`shouldRecomputeMinMax
      ensures Valid()
      ensures r.Err? <==> Outside(x, y)
      ensures r.Err? ==> r.error == NullPointer && cells == old(cells)
                         && shouldRecomputeMinMax == old(shouldRecomputeMinMax)
      ensures r.Ok? ==> shouldRecomputeMinMax
      ensures r.Ok? ==> forall q, w :: IsInt(w) ==>
                ValueAt(Cell(cells, q), w) == if q == IntPos(x, y) && w <= zMax then t else ValueAt(Cell(old(cells), q), w)
      ensures r.Ok? ==> cells.Keys == old(cells).Keys + {IntPos(x, y)}
    {
      if Outside(x, y) {
        return Err(NullPointer);
      }
      var p := IntPos(x, y);
      var s := SetRangeInfiniteRuns(Cell(cells, p), zMax, t);
      SetRangeInfiniteRunsAllInt(Cell(cells, p), zMax, t);
      SetRangeInfiniteCellValues(cells, p, zMax, t, s);
      Write(p, s);
      shouldRecomputeMinMax := true;
      return Ok(());
    }

    /** Store entries `s` as the column at `p`. */
    method Write(p: IntPos, s: seq<Entry<V>>)
      requires Valid() && !OutsideOf(dense, size, p) && IsInt(p.x) && IsInt(p.y) && Canonical(s) && AllInt(s)
      modifies this`cells
      ensures Valid() && cells == old(cells)[p := s]
    {
      WriteBack(cells, dense, size, p, s);
      cells := cells[p := s];
    }

    /** The column at `p` after `columnAt`, which a sparse grid creates. */
    method Touch(p: IntPos)
      requires Valid() && !OutsideOf(dense, size, p) && IsInt(p.x) && IsInt(p.y)
      modifies this`cells
      ensures Valid() && cells == Created(old(cells), p, false)
    {
      if p !in cells {
        cells := cells[p := []];
      }
    }

    /** `recomputeMinMax()`: only when the flag is raised, scan every column
        and keep the least `minPos` and the greatest `maxPos` of the
        non-empty ones. */
    method RecomputeMinMax()
      requires Valid()
      modifies this`minZ, this`maxZ, this`shouldRecomputeMinMax
      ensures !shouldRecomputeMinMax
      ensures old(shouldRecomputeMinMax) ==> Bounds(cells, minZ, maxZ)
      ensures !old(shouldRecomputeMinMax) ==> minZ == old(minZ) && maxZ == old(maxZ)
    {
      if !shouldRecomputeMinMax {
        return;
      }
      minZ, maxZ := ScanBounds(cells);
      shouldRecomputeMinMax := false;
    }

    /** `minZ()`: the lowest boundary, recomputed first if the flag is raised. */
    method MinZ() returns (r: int)
      requires Valid()
      modifies this`minZ, this`maxZ, this`shouldRecomputeMinMax
      ensures r == minZ && !shouldRecomputeMinMax
      ensures old(Coherent()) ==> Bounds(cells, r, maxZ)
      ensures !old(shouldRecomputeMinMax) ==> r == old(minZ) && maxZ == old(maxZ)
    {
      RecomputeMinMax();
      r := minZ;
    }

    /** `maxZ()`: the highest boundary, recomputed first if the flag is raised. */
    method MaxZ() returns (r: int)
      requires Valid()
      modifies this`minZ, this`maxZ, this`shouldRecomputeMinMax
      ensures r == maxZ && !shouldRecomputeMinMax
      ensures old(Coherent()) ==> Bounds(cells, minZ, r)
      ensures !old(shouldRecomputeMinMax) ==> minZ == old(minZ) && r == old(maxZ)
    {
      RecomputeMinMax();
      r := maxZ;
    }

    /** `copyTo(other, x, y, z)`: lay every column of this grid over the
        column of `other` that the offsets address, skipping the ones
        `other` answers `null` for. The cache of `other` is left alone. */
    method CopyTo(other: RLEStorage<V>, x: int, y: int, z: int)
      requires Valid() && other.Valid() && other != this && IsInt(x) && IsInt(y) && IsInt(z)
      requires forall p :: p in cells ==> forall i :: 0 <= i < |cells[p]| ==> IsInt(cells[p][i].pos + z)
      modifies other`cells
      ensures other.Valid()
      ensures other.cells.Keys == old(other.cells).Keys + Targets(cells.Keys, x, y, other.dense, other.size)
      ensures forall q, w :: IsInt(w) ==>
                ValueAt(Cell(other.cells, q), w)
                == CopiedValue(old(other.cells), cells, x, y, z, other.dense, other.size, q, w)
    {
      var src := cells;
      var keys := src.Keys;
      ghost var done: set<IntPos> := {};
      ghost var start := other.cells;
      while keys != {}
        invariant keys + done == src.Keys && keys !! done
        invariant other.Valid()
        invariant forall r :: r in other.cells <==> r in start || r in Targets(done, x, y, other.dense, other.size)
        invariant forall q, w :: IsInt(w) ==>
                    ValueAt(Cell(other.cells, q), w)
                    == CopiedValue(start, Restrict(src, done), x, y, z, other.dense, other.size, q, w)
        decreases keys
      {
        var p :| p in keys;
        other.PasteColumn(src, p, x, y, z, start, done);
        keys := keys - {p};
        done := done + {p};
      }
      assert Restrict(src, done) == src;
      assert done == src.Keys;
    }

    /** One turn of `copyTo`'s loop, on the target grid: the source column
        at `p`, handed out as a column object, laid over its target. */
    method PasteColumn(src: map<IntPos, seq<Entry<V>>>, p: IntPos, x: int, y: int, z: int,
                       ghost start: map<IntPos, seq<Entry<V>>>, ghost done: set<IntPos>)
      requires Valid() && WellFormed(src) && p in src && p !in done
      requires forall i :: 0 <= i < |src[p]| ==> IsInt(src[p][i].pos + z)
      requires forall q, w :: IsInt(w) ==>
                 ValueAt(Cell(cells, q), w) == CopiedValue(start, Restrict(src, done), x, y, z, dense, size, q, w)
      requires forall r :: r in cells <==> r in start || r in Targets(done, x, y, dense, size)
      modifies this`cells
      ensures Valid()
      ensures forall r :: r in cells <==> r in start || r in Targets(done + {p}, x, y, dense, size)
      ensures forall q, w :: IsInt(w) ==>
                ValueAt(Cell(cells, q), w) == CopiedValue(start, Restrict(src, done + {p}), x, y, z, dense, size, q, w)
    {
      var c := new RLEColumn(p.x, p.y);
      c.data := src[p];
      ghost var before := cells;
      Paste(c, Target(p, x, y), z);
      CopyStepValues(start, src, done, p, x, y, z, dense, size, before, cells);
      TargetsStep(done, p, x, y, dense, size);
    }

    /** The body of `copyTo` for one source column `c`, on the target grid:
        `columnAt(q)`, then, unless that is `null`, the walk over `c`'s
        entries that lays them over the column at `q`. */
    method Paste(c: RLEColumn<V>, q: IntPos, z: int)
      requires Valid() && c.Valid() && IsInt(q.x) && IsInt(q.y)
      requires forall i :: 0 <= i < |c.data| ==> IsInt(c.data[i].pos + z)
      modifies this`cells
      ensures Valid()
      ensures Outside(q.x, q.y) ==> cells == old(cells)
      ensures forall q' :: q' in cells <==> q' in old(cells) || (q' == q && !Outside(q.x, q.y))
      ensures !Outside(q.x, q.y) ==> forall w :: IsInt(w) ==>
                ValueAt(Cell(cells, q), w) == Overlaid(Cell(old(cells), q), c.data, z, w)
      ensures forall q' :: q' != q ==> Cell(cells, q') == Cell(old(cells), q')
    {
      ghost var before := cells;
      var c2 := ColumnAt(q.x, q.y);
      if c2 == null {
        return;
      }
      assert c2.data == Cell(before, q);
      CopyColumn(c, c2, z);
      ghost var s1 := c2.data;
      Write(q, c2.data);
      forall q' | q' != q ensures Cell(cells, q') == Cell(before, q') {
        CellWritten(Created(before, q, false), q, s1, q');
      }
    }

    /** `copyTo` followed by raising the flag of `other`, which keeps its
        cache honest. */
    method CopyToMarked(other: RLEStorage<V>, x: int, y: int, z: int)
      requires Valid() && other.Valid() && other != this && IsInt(x) && IsInt(y) && IsInt(z)
      requires forall p :: p in cells ==> forall i :: 0 <= i < |cells[p]| ==> IsInt(cells[p][i].pos + z)
      modifies other`cells, other`shouldRecomputeMinMax
      ensures other.Valid() && other.shouldRecomputeMinMax && other.Coherent()
      ensures other.cells.Keys == old(other.cells).Keys + Targets(cells.Keys, x, y, other.dense, other.size)
      ensures forall q, w :: IsInt(w) ==>
                ValueAt(Cell(other.cells, q), w)
                == CopiedValue(old(other.cells), cells, x, y, z, other.dense, other.size, q, w)
    {
      CopyTo(other, x, y, z);
      other.shouldRecomputeMinMax := true;
    }
  }
}
