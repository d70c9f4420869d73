/** The face extraction of `VoxelRenderer`: which faces of a set of voxel
    columns can be seen, found by walking the columns' run-length entries
    rather than their cells.

    A face is recorded as `VoxelFaceInfo(x, y, z, voxel)`, the cell it
    belongs to and the voxel in that cell, in one list per direction. The
    columns are reached through the `columnAt` function the renderer is
    given; a column it answers `null` for has no entries. Each column
    iterator is modelled as a cursor index into the column's entries. */
module Voxels {
  import opened Java
  import opened Runs

  datatype Vec3 = Vec3(x: int, y: int, z: int)

  datatype FaceInfo<V> = FaceInfo(x: int, y: int, z: int, voxel: Option<V>)

  /** `params.columnAt`: the entries of the column at `(x, y)`, or `None`
      for a `null` column. */
  type Columns<V> = (int, int) -> Option<seq<Entry<V>>>

  /** What every column handed out by an `RLEColumn` satisfies. */
  ghost predicate ValidColumns<V>(columns: Columns<V>) {
    forall x, y :: columns(x, y).Some? ==> Canonical(columns(x, y).value) && AllInt(columns(x, y).value)
  }

  /** `columnIterator(x, y)`: a `null` column iterates as an empty list. */
  function ColumnEntries<V>(columns: Columns<V>, x: int, y: int): (s: seq<Entry<V>>)
    ensures columns(x, y).None? ==> s == []
    ensures columns(x, y).Some? ==> s == columns(x, y).value
  {
    if columns(x, y).Some? then columns(x, y).value else []
  }

  /** `DIRS`, in their order: -x, +x, -y, +y, -z, +z. */
  const DIRS: seq<Vec3> := [Vec3(-1, 0, 0), Vec3(1, 0, 0), Vec3(0, -1, 0), Vec3(0, 1, 0), Vec3(0, 0, -1), Vec3(0, 0, 1)]

  function Add(a: Vec3, b: Vec3): Vec3 {
    Vec3(a.x + b.x, a.y + b.y, a.z + b.z)
  }

  function Sub(a: Vec3, b: Vec3): Vec3 {
    Vec3(a.x - b.x, a.y - b.y, a.z - b.z)
  }

  /** Coordinate `axis` (0 for x, 1 for y, 2 for z) of `v`. */
  function Coord(v: Vec3, axis: nat): int {
    if axis == 0 then v.x else if axis == 1 then v.y else v.z
  }

  /** The cell of column `(x, y)` next to cell `z` in direction `d`, and
      whether the face of cell `z` toward it can be seen: the cell holds
      `f.voxel` and the neighbouring cell is empty. Horizontal neighbours
      are found with Java `int` arithmetic. */
  ghost predicate ExposedToward<V>(columns: Columns<V>, f: FaceInfo<V>, d: Vec3) {
    && f.voxel.Some?
    && ValueAt(ColumnEntries(columns, f.x, f.y), f.z) == f.voxel
    && ValueAt(ColumnEntries(columns, Wrap(f.x + d.x) as int, Wrap(f.y + d.y) as int), f.z + d.z) == None
  }

  // ---------------------------------------------------------------------
  // Top and bottom faces: one pass over a column's entries.

  /** The +z faces of the steps between entries `j` and `j + 1` for every
      `j < m`: a full run below an empty one shows its top face. */
  function UpsBelow<V>(x: int, y: int, s: seq<Entry<V>>, m: nat): seq<FaceInfo<V>>
    requires m < |s|
  {
    if m == 0 then []
    else UpsBelow(x, y, s, m - 1)
         + (if s[m].value.None? && s[m - 1].value.Some? then [FaceInfo(x, y, s[m - 1].pos, s[m - 1].value)] else [])
  }

  /** The -z faces of the steps below `m`: an empty run below a full one
      exposes the bottom face of the full run's lowest cell. */
  function DownsBelow<V>(x: int, y: int, s: seq<Entry<V>>, m: nat): seq<FaceInfo<V>>
    requires m < |s|
  {
    if m == 0 then []
    else DownsBelow(x, y, s, m - 1)
         + (if s[m].value.Some? && s[m - 1].value.None?
            then [FaceInfo(x, y, Wrap(s[m - 1].pos + 1) as int, s[m].value)] else [])
  }

  /** Every +z face `generateExposedFaces` adds, in order; the top entry
      always adds one. */
  function UpFaces<V>(x: int, y: int, s: seq<Entry<V>>): seq<FaceInfo<V>> {
    if s == [] then [] else UpsBelow(x, y, s, |s| - 1) + [FaceInfo(x, y, s[|s| - 1].pos, s[|s| - 1].value)]
  }

  /** Every -z face `generateExposedFaces` adds, in order. */
  function DownFaces<V>(x: int, y: int, s: seq<Entry<V>>): seq<FaceInfo<V>> {
    if s == [] then [] else DownsBelow(x, y, s, |s| - 1)
  }

  /** `generateExposedFaces(x, y, quads1, quads2)`: the -z faces of the
      column go after `quads1`, the +z faces after `quads2`. */
  method GenerateExposedFaces<V>(columns: Columns<V>, x: int, y: int, quads1: seq<FaceInfo<V>>, quads2: seq<FaceInfo<V>>)
    returns (down: seq<FaceInfo<V>>, up: seq<FaceInfo<V>>)
    ensures down == quads1 + DownFaces(x, y, ColumnEntries(columns, x, y))
    ensures up == quads2 + UpFaces(x, y, ColumnEntries(columns, x, y))
  {
    var s := ColumnEntries(columns, x, y);
    down, up := quads1, quads2;
    if |s| == 0 {
      return;
    }
    var e := s[0];
    var i := 1;
    while i < |s|
      invariant 1 <= i <= |s|
      invariant e == s[i - 1]
      invariant down == quads1 + DownsBelow(x, y, s, i - 1)
      invariant up == quads2 + UpsBelow(x, y, s, i - 1)
    {
      var ne := s[i];
      i := i + 1;
      if ne.value.None? && e.value.Some? {
        up := up + [FaceInfo(x, y, e.pos, e.value)];
      } else if ne.value.Some? && e.value.None? {
        down := down + [FaceInfo(x, y, Wrap(e.pos + 1) as int, ne.value)];
      }
      e := ne;
    }
    up := up + [FaceInfo(x, y, e.pos, e.value)];
  }

  /** A step below `m` from a full run to an empty one adds its +z face. */
  lemma {:induction false} UpsBelowHas<V>(x: int, y: int, s: seq<Entry<V>>, m: nat, j: nat)
    requires j < m < |s| && s[j + 1].value.None? && s[j].value.Some?
    ensures FaceInfo(x, y, s[j].pos, s[j].value) in UpsBelow(x, y, s, m)
  {
    if j + 1 < m {
      UpsBelowHas(x, y, s, m - 1, j);
    }
  }

  /** Every +z face below `m` comes from such a step. */
  lemma {:induction false} UpsBelowWitness<V>(x: int, y: int, s: seq<Entry<V>>, m: nat, f: FaceInfo<V>) returns (j: nat)
    requires m < |s| && f in UpsBelow(x, y, s, m)
    ensures j < m && s[j + 1].value.None? && s[j].value.Some? && f == FaceInfo(x, y, s[j].pos, s[j].value)
  {
    if f in UpsBelow(x, y, s, m - 1) {
      j := UpsBelowWitness(x, y, s, m - 1, f);
    } else {
      j := m - 1;
    }
  }

  /** A step below `m` from an empty run to a full one adds its -z face. */
  lemma {:induction false} DownsBelowHas<V>(x: int, y: int, s: seq<Entry<V>>, m: nat, j: nat)
    requires j < m < |s| && s[j + 1].value.Some? && s[j].value.None?
    ensures FaceInfo(x, y, Wrap(s[j].pos + 1) as int, s[j + 1].value) in DownsBelow(x, y, s, m)
  {
    if j + 1 < m {
      DownsBelowHas(x, y, s, m - 1, j);
    }
  }

  /** Every -z face below `m` comes from such a step. */
  lemma {:induction false} DownsBelowWitness<V>(x: int, y: int, s: seq<Entry<V>>, m: nat, f: FaceInfo<V>) returns (j: nat)
    requires m < |s| && f in DownsBelow(x, y, s, m)
    ensures j < m && s[j + 1].value.Some? && s[j].value.None?
            && f == FaceInfo(x, y, Wrap(s[j].pos + 1) as int, s[j + 1].value)
  {
    if f in DownsBelow(x, y, s, m - 1) {
      j := DownsBelowWitness(x, y, s, m - 1, f);
    } else {
      j := m - 1;
    }
  }

  /** Two neighbouring cells in different runs: the lower one is the
      position of an entry, and the upper one belongs to the next entry, or
      lies above them all. */
  lemma RunTop<V>(s: seq<Entry<V>>, z: int)
    requires Ascending(s)
    requires ValueAt(s, z) != ValueAt(s, z + 1)
    ensures IndexAbove(s, z) < |s| && s[IndexAbove(s, z)].pos == z
    ensures IndexAbove(s, z) + 1 < |s| ==> ValueAt(s, z + 1) == s[IndexAbove(s, z) + 1].value
    ensures IndexAbove(s, z) + 1 == |s| ==> ValueAt(s, z + 1) == None
  {
    var k := IndexAbove(s, z);
    IndexAboveMonotone(s, z, z + 1);
    if k + 1 < |s| {
      ValueInRun(s, k + 1, z + 1);
    } else if k < |s| {
      IndexAboveUnique(s, z + 1, |s|);
    }
  }

  /** A full cell at the top of its run, below an empty cell, is a +z face. */
  lemma UpFaceComplete<V>(x: int, y: int, s: seq<Entry<V>>, f: FaceInfo<V>)
    requires Ascending(s)
    requires f.x == x && f.y == y && f.voxel.Some? && ValueAt(s, f.z) == f.voxel && ValueAt(s, f.z + 1) == None
    ensures f in UpFaces(x, y, s)
  {
    RunTop(s, f.z);
    var k := IndexAbove(s, f.z);
    assert f == FaceInfo(x, y, s[k].pos, s[k].value);
    var top := UpsBelow(x, y, s, |s| - 1);
    assert UpFaces(x, y, s) == top + [FaceInfo(x, y, s[|s| - 1].pos, s[|s| - 1].value)];
    if k + 1 < |s| {
      UpsBelowHas(x, y, s, |s| - 1, k);
      assert f in top;
    }
  }

  /** The cell at an entry's position holds its value, and the cell above
      it the next entry's value, or nothing above the top entry. */
  lemma StepValues<V>(s: seq<Entry<V>>, j: nat)
    requires Ascending(s) && j < |s|
    ensures ValueAt(s, s[j].pos) == s[j].value
    ensures ValueAt(s, s[j].pos + 1) == ValueUnder(s, j + 1)
  {
    ValueInRun(s, j, s[j].pos);
    ValueAtCursor(s, j + 1, s[j].pos + 1);
  }

  /** Every +z face is a full cell below an empty one. */
  lemma UpFaceSound<V>(x: int, y: int, s: seq<Entry<V>>, f: FaceInfo<V>)
    requires Ascending(s) && s != [] && s[|s| - 1].value.Some? && f in UpFaces(x, y, s)
    ensures f.x == x && f.y == y && f.voxel.Some? && ValueAt(s, f.z) == f.voxel && ValueAt(s, f.z + 1) == None
  {
    var n := |s|;
    var j := n - 1;
    var below := UpsBelow(x, y, s, n - 1);
    assert UpFaces(x, y, s) == below + [FaceInfo(x, y, s[n - 1].pos, s[n - 1].value)];
    if f in below {
      j := UpsBelowWitness(x, y, s, n - 1, f);
    }
    assert f == FaceInfo(x, y, s[j].pos, s[j].value);
    StepValues(s, j);
    assert ValueUnder(s, j + 1) == None;
  }

  /** The +z faces of a column are exactly the full cells with an empty
      cell on top, each carrying its cell's voxel. */
  lemma UpFacesExposed<V>(x: int, y: int, s: seq<Entry<V>>, f: FaceInfo<V>)
    requires Canonical(s)
    ensures f in UpFaces(x, y, s) <==>
            f.x == x && f.y == y && f.voxel.Some? && ValueAt(s, f.z) == f.voxel && ValueAt(s, f.z + 1) == None
  {
    if s == [] {
    } else if f in UpFaces(x, y, s) {
      UpFaceSound(x, y, s, f);
    } else if f.x == x && f.y == y && f.voxel.Some? && ValueAt(s, f.z) == f.voxel && ValueAt(s, f.z + 1) == None {
      UpFaceComplete(x, y, s, f);
    }
  }

  /** A full cell at the bottom of its run, above an empty cell, is a -z face. */
  lemma DownFaceComplete<V>(x: int, y: int, s: seq<Entry<V>>, f: FaceInfo<V>)
    requires Ascending(s) && AllInt(s)
    requires f.x == x && f.y == y && f.voxel.Some? && ValueAt(s, f.z) == f.voxel && ValueAt(s, f.z - 1) == None
    ensures f in DownFaces(x, y, s)
  {
    RunTop(s, f.z - 1);
    var k := IndexAbove(s, f.z - 1);
    assert k + 1 < |s|;
    assert IsInt(s[k].pos + 1) by {
      assert s[k].pos < s[k + 1].pos;
    }
    DownsBelowHas(x, y, s, |s| - 1, k);
  }

  /** Every -z face is a full cell above an empty one. */
  lemma DownFaceSound<V>(x: int, y: int, s: seq<Entry<V>>, f: FaceInfo<V>)
    requires Ascending(s) && AllInt(s) && s != [] && f in DownFaces(x, y, s)
    ensures f.x == x && f.y == y && f.voxel.Some? && ValueAt(s, f.z) == f.voxel && ValueAt(s, f.z - 1) == None
  {
    var j := DownsBelowWitness(x, y, s, |s| - 1, f);
    assert IsInt(s[j].pos + 1) by {
      assert s[j].pos < s[j + 1].pos;
    }
    ValueInRun(s, j, f.z - 1);
    ValueInRun(s, j + 1, f.z);
  }

  /** The -z faces of a column are exactly the full cells with an empty
      cell below, each carrying its cell's voxel. */
  lemma DownFacesExposed<V>(x: int, y: int, s: seq<Entry<V>>, f: FaceInfo<V>)
    requires Ascending(s) && AllInt(s)
    ensures f in DownFaces(x, y, s) <==>
            f.x == x && f.y == y && f.voxel.Some? && ValueAt(s, f.z) == f.voxel && ValueAt(s, f.z - 1) == None
  {
    if s == [] {
    } else if f in DownFaces(x, y, s) {
      DownFaceSound(x, y, s, f);
    } else if f.x == x && f.y == y && f.voxel.Some? && ValueAt(s, f.z) == f.voxel && ValueAt(s, f.z - 1) == None {
      DownFaceComplete(x, y, s, f);
    }
  }

  /** Along the steps below `m`, the +z faces outnumber the -z faces by
      whether the bottom run is full less whether run `m` is. */
  lemma {:induction false} FaceBalanceBelow<V>(x: int, y: int, s: seq<Entry<V>>, m: nat)
    requires m < |s|
    ensures |UpsBelow(x, y, s, m)| + (if s[m].value.Some? then 1 else 0)
            == |DownsBelow(x, y, s, m)| + (if s[0].value.Some? then 1 else 0)
  {
    if m > 0 {
      FaceBalanceBelow(x, y, s, m - 1);
    }
  }

  /** For a column whose top entry is full, there is one +z face per -z
      face, and one more when the lowest run is full. */
  lemma FaceBalance<V>(x: int, y: int, s: seq<Entry<V>>)
    requires Canonical(s)
    ensures |UpFaces(x, y, s)| == |DownFaces(x, y, s)| + (if HeadValue(s).Some? then 1 else 0)
  {
    if s != [] {
      FaceBalanceBelow(x, y, s, |s| - 1);
    }
  }

  // ---------------------------------------------------------------------
  // Side faces: a merge of two columns' entries.

  /** The position of the entry under a cursor, or `Integer.MAX_VALUE`
      once the cursor is past the end (the `null` entry). */
  function Key<V>(s: seq<Entry<V>>, j: nat): int {
    if j < |s| then s[j].pos else MAX_INT
  }

  /** The value of the entry under a cursor, or empty past the end. */
  function ValueUnder<V>(s: seq<Entry<V>>, j: nat): Option<V> {
    if j < |s| then s[j].value else None
  }

  /** Between the entry before a cursor and the key under it, every cell
      holds the value under the cursor. */
  lemma ValueAtCursor<V>(s: seq<Entry<V>>, j: nat, w: int)
    requires Ascending(s) && j <= |s|
    requires j == 0 || s[j - 1].pos < w
    requires j < |s| ==> w <= s[j].pos
    ensures ValueAt(s, w) == ValueUnder(s, j)
  {
    if j < |s| {
      ValueInRun(s, j, w);
    } else {
      IndexAboveUnique(s, w, j);
    }
  }

  /** The cells `lo < z <= hi`, bottom to top, where column `a` is full and
      column `b` beside it is empty: the side faces of `a` facing `b`. */
  function SideExposed<V>(x: int, y: int, a: seq<Entry<V>>, b: seq<Entry<V>>, lo: int, hi: int): (r: seq<FaceInfo<V>>)
    ensures forall i :: 0 <= i < |r| ==> lo < r[i].z <= hi
    ensures forall i, j :: 0 <= i < j < |r| ==> r[i].z < r[j].z
    decreases hi - lo
  {
    if hi <= lo then []
    else SideExposed(x, y, a, b, lo, hi - 1)
         + (if ValueAt(a, hi).Some? && ValueAt(b, hi).None? then [FaceInfo(x, y, hi, ValueAt(a, hi))] else [])
  }

  /** Cells that show no face add nothing. */
  lemma {:induction false} SideExposedSkip<V>(x: int, y: int, a: seq<Entry<V>>, b: seq<Entry<V>>, lo: int, mid: int, hi: int)
    requires lo <= mid <= hi
    requires forall w :: mid < w <= hi ==> !(ValueAt(a, w).Some? && ValueAt(b, w).None?)
    ensures SideExposed(x, y, a, b, lo, hi) == SideExposed(x, y, a, b, lo, mid)
    decreases hi - mid
  {
    if mid < hi {
      SideExposedSkip(x, y, a, b, lo, mid, hi - 1);
    }
  }

  /** The faces listed are exactly those of the cells between `lo` and `hi`
      where `a` is full and `b` empty, each once. */
  lemma {:induction false} SideExposedMembers<V>(x: int, y: int, a: seq<Entry<V>>, b: seq<Entry<V>>, lo: int, hi: int,
                                                 f: FaceInfo<V>)
    ensures f in SideExposed(x, y, a, b, lo, hi) <==>
            f.x == x && f.y == y && lo < f.z <= hi && ValueAt(a, f.z).Some? && ValueAt(b, f.z) == None
            && f.voxel == ValueAt(a, f.z)
    decreases hi - lo
  {
    if lo < hi {
      SideExposedMembers(x, y, a, b, lo, hi - 1, f);
      var va, vb := ValueAt(a, hi), ValueAt(b, hi);
      var last := if va.Some? && vb.None? then [FaceInfo(x, y, hi, va)] else [];
      assert SideExposed(x, y, a, b, lo, hi) == SideExposed(x, y, a, b, lo, hi - 1) + last;
    }
  }

  /** What `generateExposedSideFaces` adds for column `a` beside `b`:
      nothing when `a` is empty, and otherwise the side faces from just
      above the lower of the two first keys up to `a`'s last key. */
  function SideFaces<V>(x: int, y: int, a: seq<Entry<V>>, b: seq<Entry<V>>): seq<FaceInfo<V>> {
    if a == [] then [] else SideExposed(x, y, a, b, Min(a[0].pos, Key(b, 0)), a[|a| - 1].pos)
  }

  /** `generateExposedSideFaces(x, y, dir, quads)`: sweep the column at
      `(x, y)` and its neighbour at `(x + dir.x, y + dir.y)` together, one
      entry of one of them per turn, and add a face for every cell of this
      column's run that is full where the neighbour's run is empty. */
  method GenerateExposedSideFaces<V>(columns: Columns<V>, x: int, y: int, dir: Vec3, quads: seq<FaceInfo<V>>)
    returns (r: seq<FaceInfo<V>>)
    requires ValidColumns(columns)
    ensures r == quads + SideFaces(x, y, ColumnEntries(columns, x, y), Neighbour(columns, x, y, dir))
  {
    var a := ColumnEntries(columns, x, y);
    var b := Neighbour(columns, x, y, dir);
    r := Sweep(x, y, a, b, quads);
  }

  /** The body of `generateExposedSideFaces` once both iterators are open. */
  method Sweep<V>(x: int, y: int, a: seq<Entry<V>>, b: seq<Entry<V>>, quads: seq<FaceInfo<V>>) returns (r: seq<FaceInfo<V>>)
    requires Ascending(a) && Ascending(b) && AllInt(a) && AllInt(b)
    ensures r == quads + SideFaces(x, y, a, b)
  {
    r := quads;
    if |a| == 0 {
      return;
    }
    // e1 is a[j1]; e2 is b[j2], or null when j2 == |b|
    var j1, j2 := 0, 0;
    var pos := Min(a[0].pos, Key(b, 0));
    ghost var p0 := pos;
    while true
      invariant Cursors(a, b, j1, j2, pos) && p0 <= pos
      invariant r == quads + SideExposed(x, y, a, b, p0, pos)
      decreases |a| - j1 + |b| - j2
    {
      if j2 < |b| && b[j2].pos < a[j1].pos {
        var nextPos;
        nextPos, r := AdvanceNeighbour(x, y, a, b, quads, p0, j1, j2, pos, r);
        j2 := j2 + 1;
        pos := nextPos;
        continue;
      } else if j1 + 1 < |a| {
        var nextPos;
        nextPos, r := AdvanceThis(x, y, a, b, quads, p0, j1, j2, pos, r);
        j1 := j1 + 1;
        pos := nextPos;
        continue;
      }
      break;
    }
  }

  /** The sweep's cursors: `pos` is the nearer of the current keys of this
      column (entry `j1`) and the neighbour (entry `j2`, or none past its
      end), and every entry before a cursor lies at or below `pos`. */
  predicate Cursors<V>(a: seq<Entry<V>>, b: seq<Entry<V>>, j1: int, j2: int, pos: int) {
    && 0 <= j1 < |a| && 0 <= j2 <= |b|
    && pos == Min(a[j1].pos, Key(b, j2))
    && (j1 == 0 || a[j1 - 1].pos <= pos)
    && (j2 == 0 || b[j2 - 1].pos <= pos)
  }

  /** The turn of the sweep that takes the next entry of the neighbour,
      whose current entry lies below this column's: the cells up to the
      nearer of the two keys take this column's current value and the
      neighbour's next one. */
  method AdvanceNeighbour<V>(x: int, y: int, a: seq<Entry<V>>, b: seq<Entry<V>>, ghost quads: seq<FaceInfo<V>>,
                             ghost p0: int, j1: nat, j2: nat, pos: int, r: seq<FaceInfo<V>>)
    returns (nextPos: int, r': seq<FaceInfo<V>>)
    requires Ascending(a) && Ascending(b) && AllInt(b)
    requires Cursors(a, b, j1, j2, pos) && j2 < |b| && b[j2].pos < a[j1].pos && p0 <= pos
    requires r == quads + SideExposed(x, y, a, b, p0, pos)
    ensures Cursors(a, b, j1, j2 + 1, nextPos) && pos <= nextPos
    ensures r' == quads + SideExposed(x, y, a, b, p0, nextPos)
  {
    nextPos := Min(a[j1].pos, Key(b, j2 + 1));
    forall w | pos < w <= nextPos
      ensures ValueAt(a, w) == a[j1].value && ValueAt(b, w) == ValueUnder(b, j2 + 1)
    {
      ValueAtCursor(a, j1, w);
      ValueAtCursor(b, j2 + 1, w);
    }
    r' := FillRun(x, y, a, b, quads, p0, pos, nextPos, a[j1].value,
                  a[j1].value.Some? && (j2 + 1 == |b| || b[j2 + 1].value.None?), r);
  }

  /** The turn of the sweep that takes the next entry of this column: the
      cells up to the nearer of the two keys take this column's next value
      and the neighbour's current one. */
  method AdvanceThis<V>(x: int, y: int, a: seq<Entry<V>>, b: seq<Entry<V>>, ghost quads: seq<FaceInfo<V>>,
                        ghost p0: int, j1: nat, j2: nat, pos: int, r: seq<FaceInfo<V>>)
    returns (nextPos: int, r': seq<FaceInfo<V>>)
    requires Ascending(a) && Ascending(b)
    requires Cursors(a, b, j1, j2, pos) && j1 + 1 < |a| && a[j1].pos <= Key(b, j2) && p0 <= pos
    requires r == quads + SideExposed(x, y, a, b, p0, pos)
    ensures Cursors(a, b, j1 + 1, j2, nextPos) && pos <= nextPos
    ensures r' == quads + SideExposed(x, y, a, b, p0, nextPos)
  {
    nextPos := Min(a[j1 + 1].pos, Key(b, j2));
    forall w | pos < w <= nextPos
      ensures ValueAt(a, w) == a[j1 + 1].value && ValueAt(b, w) == ValueUnder(b, j2)
    {
      ValueAtCursor(a, j1 + 1, w);
      ValueAtCursor(b, j2, w);
    }
    r' := FillRun(x, y, a, b, quads, p0, pos, nextPos, a[j1 + 1].value,
                  a[j1 + 1].value.Some? && (j2 == |b| || b[j2].value.None?), r);
  }

  /** One turn of the sweep: when `exposed`, the loop
      `for (int z = pos; z < next_pos; z++)` adds a face carrying `v` for
      each cell `pos < z <= nextPos`, all of which hold `v` and show a face;
      otherwise none of them shows one. */
  method FillRun<V>(x: int, y: int, a: seq<Entry<V>>, b: seq<Entry<V>>, ghost quads: seq<FaceInfo<V>>, ghost lo: int,
                    pos: int, nextPos: int, v: Option<V>, exposed: bool, r: seq<FaceInfo<V>>)
    returns (r': seq<FaceInfo<V>>)
    requires lo <= pos <= nextPos
    requires forall w :: pos < w <= nextPos ==> ValueAt(a, w) == v
    requires forall w :: pos < w <= nextPos ==> (exposed <==> ValueAt(a, w).Some? && ValueAt(b, w).None?)
    requires r == quads + SideExposed(x, y, a, b, lo, pos)
    ensures r' == quads + SideExposed(x, y, a, b, lo, nextPos)
  {
    r' := r;
    if exposed {
      for z := pos to nextPos
        invariant r' == quads + SideExposed(x, y, a, b, lo, z)
      {
        r' := r' + [FaceInfo(x, y, z + 1, v)];
      }
    } else {
      SideExposedSkip(x, y, a, b, lo, pos, nextPos);
    }
  }

  // ---------------------------------------------------------------------
  // All faces of the columns to draw, and their bounding box.

  /** The column next to `(x, y)` in direction `d`, in `int` arithmetic. */
  function Neighbour<V>(columns: Columns<V>, x: int, y: int, d: Vec3): seq<Entry<V>> {
    ColumnEntries(columns, Wrap(x + d.x) as int, Wrap(y + d.y) as int)
  }

  /** The faces one column to draw adds in direction `DIRS[d]`. */
  function FacesToward<V>(columns: Columns<V>, x: int, y: int, d: nat): seq<FaceInfo<V>>
    requires d < 6
  {
    var s := ColumnEntries(columns, x, y);
    if d < 4 then SideFaces(x, y, s, Neighbour(columns, x, y, DIRS[d]))
    else if d == 4 then DownFaces(x, y, s)
    else UpFaces(x, y, s)
  }

  /** The faces one column to draw adds, one list per direction, in `DIRS`
      order. */
  function ColumnQuads<V>(columns: Columns<V>, x: int, y: int): (q: seq<seq<FaceInfo<V>>>)
    ensures |q| == 6 && forall d :: 0 <= d < 6 ==> q[d] == FacesToward(columns, x, y, d)
  {
    seq(6, d requires 0 <= d < 6 => FacesToward(columns, x, y, d))
  }

  /** Each of six lists extended by the matching list of `c`. */
  function Append<V>(q: seq<seq<FaceInfo<V>>>, c: seq<seq<FaceInfo<V>>>): (r: seq<seq<FaceInfo<V>>>)
    requires |q| == 6 && |c| == 6
    ensures |r| == 6 && forall d :: 0 <= d < 6 ==> r[d] == q[d] + c[d]
  {
    seq(6, d requires 0 <= d < 6 => q[d] + c[d])
  }

  /** The faces the constructor collects for the columns `toDraw`. */
  function QuadsOf<V>(columns: Columns<V>, toDraw: seq<(int, int)>): (q: seq<seq<FaceInfo<V>>>)
    ensures |q| == 6
  {
    if toDraw == [] then [[], [], [], [], [], []]
    else Append(QuadsOf(columns, toDraw[..|toDraw| - 1]),
                ColumnQuads(columns, toDraw[|toDraw| - 1].0, toDraw[|toDraw| - 1].1))
  }

  /** The loop of the constructor that finds all quads to render. */
  method FindQuads<V>(columns: Columns<V>, toDraw: seq<(int, int)>) returns (quads: seq<seq<FaceInfo<V>>>)
    requires ValidColumns(columns)
    ensures quads == QuadsOf(columns, toDraw)
  {
    quads := [[], [], [], [], [], []];
    var k := 0;
    while k < |toDraw|
      invariant 0 <= k <= |toDraw|
      invariant quads == QuadsOf(columns, toDraw[..k])
    {
      assert toDraw[..k + 1][..k] == toDraw[..k];
      quads := AddColumn(columns, toDraw[k].0, toDraw[k].1, quads);
      k := k + 1;
    }
    assert toDraw[..|toDraw|] == toDraw;
  }

  /** The body of that loop for one column: its four side directions,
      then its bottom and top. */
  method AddColumn<V>(columns: Columns<V>, x: int, y: int, quads: seq<seq<FaceInfo<V>>>)
    returns (r: seq<seq<FaceInfo<V>>>)
    requires ValidColumns(columns) && |quads| == 6
    ensures r == Append(quads, ColumnQuads(columns, x, y))
  {
    var c := ColumnQuads(columns, x, y);
    r := quads;
    var d := 0;
    while d < 4
      invariant 0 <= d <= 4 && |r| == 6
      invariant forall i :: d <= i < 6 ==> r[i] == quads[i]
      invariant forall i :: 0 <= i < d ==> r[i] == quads[i] + c[i]
    {
      var list := GenerateExposedSideFaces(columns, x, y, DIRS[d], r[d]);
      r := r[d := list];
      d := d + 1;
    }
    var down, up := GenerateExposedFaces(columns, x, y, r[4], r[5]);
    r := r[4 := down][5 := up];
  }

  /** A side face is a full cell of this column beside an empty cell of
      the neighbour. */
  lemma SideFaceMember<V>(x: int, y: int, a: seq<Entry<V>>, b: seq<Entry<V>>, f: FaceInfo<V>)
    requires f in SideFaces(x, y, a, b)
    ensures f.x == x && f.y == y && f.voxel.Some?
    ensures ValueAt(a, f.z) == f.voxel && ValueAt(b, f.z) == None
  {
    SideExposedMembers(x, y, a, b, Min(a[0].pos, Key(b, 0)), a[|a| - 1].pos, f);
  }

  /** Every side face of a column can be seen from the neighbour it faces. */
  lemma SideFacesExposed<V>(columns: Columns<V>, x: int, y: int, dir: Vec3, f: FaceInfo<V>)
    requires dir.z == 0
    requires f in SideFaces(x, y, ColumnEntries(columns, x, y), Neighbour(columns, x, y, dir))
    ensures ExposedToward(columns, f, dir)
  {
    SideFaceMember(x, y, ColumnEntries(columns, x, y), Neighbour(columns, x, y, dir), f);
  }

  /** Every face one column adds can be seen: a full cell whose neighbour
      in the face's direction is empty. */
  lemma ColumnQuadsExposed<V>(columns: Columns<V>, x: int, y: int, d: nat, f: FaceInfo<V>)
    requires Canonical(ColumnEntries(columns, x, y)) && AllInt(ColumnEntries(columns, x, y))
    requires IsInt(x) && IsInt(y)
    requires d < 6 && f in FacesToward(columns, x, y, d)
    ensures ExposedToward(columns, f, DIRS[d])
  {
    var s := ColumnEntries(columns, x, y);
    if d < 4 {
      SideQuadsExposed(columns, x, y, d, f);
    } else if d == 4 {
      assert f in DownFaces(x, y, s);
      DownFacesExposed(x, y, s, f);
      VerticalExposed(columns, x, y, DIRS[4], f);
    } else {
      assert f in UpFaces(x, y, s);
      UpFacesExposed(x, y, s, f);
      VerticalExposed(columns, x, y, DIRS[5], f);
    }
  }

  /** The four side directions of `ColumnQuadsExposed`. */
  lemma SideQuadsExposed<V>(columns: Columns<V>, x: int, y: int, d: nat, f: FaceInfo<V>)
    requires d < 4 && f in FacesToward(columns, x, y, d)
    ensures ExposedToward(columns, f, DIRS[d])
  {
    var dir := DIRS[d];
    assert dir.z == 0 by {
      assert DIRS[0].z == 0 && DIRS[1].z == 0 && DIRS[2].z == 0 && DIRS[3].z == 0;
    }
    assert f in SideFaces(x, y, ColumnEntries(columns, x, y), Neighbour(columns, x, y, dir));
    SideFacesExposed(columns, x, y, dir, f);
  }

  /** A bottom or top face is exposed when the cell past it in its own
      column is empty. */
  lemma VerticalExposed<V>(columns: Columns<V>, x: int, y: int, dir: Vec3, f: FaceInfo<V>)
    requires dir.x == 0 && dir.y == 0 && IsInt(x) && IsInt(y)
    requires f.x == x && f.y == y && f.voxel.Some?
    requires ValueAt(ColumnEntries(columns, x, y), f.z) == f.voxel
    requires ValueAt(ColumnEntries(columns, x, y), f.z + dir.z) == None
    ensures ExposedToward(columns, f, dir)
  {
  }

  /** Every face the constructor finds can be seen. */
  lemma {:induction false} QuadsExposed<V>(columns: Columns<V>, toDraw: seq<(int, int)>, d: nat, f: FaceInfo<V>)
    requires ValidColumns(columns)
    requires forall i :: 0 <= i < |toDraw| ==> IsInt(toDraw[i].0) && IsInt(toDraw[i].1)
    requires d < 6 && f in QuadsOf(columns, toDraw)[d]
    ensures ExposedToward(columns, f, DIRS[d])
  {
    var n := |toDraw| - 1;
    if f in QuadsOf(columns, toDraw[..n])[d] {
      QuadsExposed(columns, toDraw[..n], d, f);
    } else {
      assert f in ColumnQuads(columns, toDraw[n].0, toDraw[n].1)[d];
      assert Canonical(ColumnEntries(columns, toDraw[n].0, toDraw[n].1));
      ColumnQuadsExposed(columns, toDraw[n].0, toDraw[n].1, d, f);
    }
  }

  /** `mapToInt(vfi -> vfi.x)` for axis 0, `.y` for 1 and `.z` for 2. */
  function FaceCoord<V>(f: FaceInfo<V>, axis: nat): int {
    Coord(Vec3(f.x, f.y, f.z), axis)
  }

  /** `min().getAsInt()` of one coordinate over a non-empty stream of faces. */
  function MinCoord<V>(faces: seq<FaceInfo<V>>, axis: nat): (r: int)
    requires faces != []
    ensures forall i :: 0 <= i < |faces| ==> r <= FaceCoord(faces[i], axis)
    ensures exists i :: 0 <= i < |faces| && r == FaceCoord(faces[i], axis)
  {
    if |faces| == 1 then FaceCoord(faces[0], axis)
    else
      var m := MinCoord(faces[1..], axis);
      assert forall i :: 1 <= i < |faces| ==> faces[1..][i - 1] == faces[i];
      Min(FaceCoord(faces[0], axis), m)
  }

  /** `max().getAsInt()` of one coordinate over a non-empty stream of faces. */
  function MaxCoord<V>(faces: seq<FaceInfo<V>>, axis: nat): (r: int)
    requires faces != []
    ensures forall i :: 0 <= i < |faces| ==> FaceCoord(faces[i], axis) <= r
    ensures exists i :: 0 <= i < |faces| && r == FaceCoord(faces[i], axis)
  {
    if |faces| == 1 then FaceCoord(faces[0], axis)
    else
      var m := MaxCoord(faces[1..], axis);
      assert forall i :: 1 <= i < |faces| ==> faces[1..][i - 1] == faces[i];
      Max(FaceCoord(faces[0], axis), m)
  }

  datatype Box = Box(min: Vec3, max: Vec3)

  /** The bounding box of lines 63-68: the least coordinates of all faces,
      and one more than the greatest, in `int` arithmetic; `getAsInt` on an
      empty stream throws. */
  function BoundingBox<V>(faces: seq<FaceInfo<V>>): (r: Result<Box>)
    ensures r.Err? <==> faces == []
    ensures r.Err? ==> r.error == NoSuchElement
  {
    if faces == [] then Err(NoSuchElement)
    else
      Ok(Box(Vec3(MinCoord(faces, 0), MinCoord(faces, 1), MinCoord(faces, 2)),
             Vec3(UpperBound(faces, 0), UpperBound(faces, 1), UpperBound(faces, 2))))
  }

  /** `max().getAsInt() + 1` of one coordinate, in `int` arithmetic. */
  function UpperBound<V>(faces: seq<FaceInfo<V>>, axis: nat): int
    requires faces != []
  {
    Wrap(MaxCoord(faces, axis) + 1) as int
  }

  /** When no face sits at `Integer.MAX_VALUE`, the box holds every face's
      cell: from `min` inclusive to `max` exclusive on each axis, with both
      bounds reached. */
  lemma BoundingBoxContains<V>(faces: seq<FaceInfo<V>>, i: nat, axis: nat)
    requires i < |faces| && axis < 3
    requires forall j :: 0 <= j < |faces| ==> IsInt(FaceCoord(faces[j], axis)) && FaceCoord(faces[j], axis) < MAX_INT
    ensures BoundingBox(faces).Ok?
    ensures Coord(BoundingBox(faces).value.min, axis) <= FaceCoord(faces[i], axis) < Coord(BoundingBox(faces).value.max, axis)
  {
    BoxMin(faces, axis);
    BoxMax(faces, axis);
  }

  /** Axis `axis` of the box starts at `MinCoord`. */
  lemma BoxMin<V>(faces: seq<FaceInfo<V>>, axis: nat)
    requires faces != [] && axis < 3
    ensures Coord(BoundingBox(faces).value.min, axis) == MinCoord(faces, axis)
  {
    var box := BoundingBox(faces).value;
    assert box.min == Vec3(MinCoord(faces, 0), MinCoord(faces, 1), MinCoord(faces, 2));
  }

  /** Axis `axis` of the box ends at `MaxCoord + 1` when that does not wrap. */
  lemma BoxMax<V>(faces: seq<FaceInfo<V>>, axis: nat)
    requires faces != [] && axis < 3
    requires forall j :: 0 <= j < |faces| ==> IsInt(FaceCoord(faces[j], axis)) && FaceCoord(faces[j], axis) < MAX_INT
    ensures Coord(BoundingBox(faces).value.max, axis) == MaxCoord(faces, axis) + 1
  {
    var m := MaxCoord(faces, axis);
    var j :| 0 <= j < |faces| && m == FaceCoord(faces[j], axis);
    assert IsInt(m + 1);
    assert UpperBound(faces, axis) == m + 1;
    var box := BoundingBox(faces).value;
    assert box.max == Vec3(UpperBound(faces, 0), UpperBound(faces, 1), UpperBound(faces, 2));
  }

  /** All faces of the six lists together, as `quads.values()` streams them. */
  function AllFaces<V>(quads: seq<seq<FaceInfo<V>>>): seq<FaceInfo<V>>
    requires |quads| == 6
  {
    quads[0] + quads[1] + quads[2] + quads[3] + quads[4] + quads[5]
  }

  /** The bounding box exists as soon as one column to draw has an entry:
      its top entry always shows a +z face. */
  lemma BoundingBoxExists<V>(columns: Columns<V>, toDraw: seq<(int, int)>, k: nat)
    requires k < |toDraw| && ColumnEntries(columns, toDraw[k].0, toDraw[k].1) != []
    ensures BoundingBox(AllFaces(QuadsOf(columns, toDraw))).Ok?
  {
    UpFacesGrow(columns, toDraw, k);
  }

  lemma {:induction false} UpFacesGrow<V>(columns: Columns<V>, toDraw: seq<(int, int)>, k: nat)
    requires k < |toDraw| && ColumnEntries(columns, toDraw[k].0, toDraw[k].1) != []
    ensures QuadsOf(columns, toDraw)[5] != []
  {
    if k < |toDraw| - 1 {
      UpFacesGrow(columns, toDraw[..|toDraw| - 1], k);
    }
  }

  // ---------------------------------------------------------------------
  // The corners of one face.

  const NORMAL_TO_DIR1: seq<Vec3> := [Vec3(0, 1, 0), Vec3(0, 1, 0), Vec3(1, 0, 0), Vec3(1, 0, 0), Vec3(1, 0, 0), Vec3(1, 0, 0)]
  const NORMAL_TO_DIR2: seq<Vec3> := [Vec3(0, 0, 1), Vec3(0, 0, 1), Vec3(0, 0, 1), Vec3(0, 0, 1), Vec3(0, 1, 0), Vec3(0, 1, 0)]

  /** `DIRS.indexOf(dir)`: the first index holding `dir`, or -1. */
  function IndexOf(dir: Vec3): (i: int)
    ensures -1 <= i < |DIRS|
    ensures i >= 0 ==> DIRS[i] == dir && forall j :: 0 <= j < i ==> DIRS[j] != dir
    ensures i == -1 <==> dir !in DIRS
  {
    if dir == DIRS[0] then 0 else if dir == DIRS[1] then 1 else if dir == DIRS[2] then 2
    else if dir == DIRS[3] then 3 else if dir == DIRS[4] then 4 else if dir == DIRS[5] then 5 else -1
  }

  function Abs(n: int): nat {
    if n < 0 then -n else n
  }

  /** A unit step along one axis other than `axis`. */
  predicate UnitAcross(u: Vec3, axis: nat) {
    Coord(u, axis) == 0 && Abs(u.x) + Abs(u.y) + Abs(u.z) == 1
  }

  /** `corners(dir)`: a direction outside `DIRS` has index -1, which the
      tables reject. Otherwise the four corners, in order, go round a unit
      square that lies across the face's normal, in the plane of the
      cell's lower side for a negative direction and of its upper side for
      a positive one. */
  function Corners<V>(f: FaceInfo<V>, dir: Vec3): (r: Result<seq<Vec3>>)
    ensures r.Err? <==> dir !in DIRS
    ensures r.Err? ==> r.error == IndexOutOfBounds
    ensures r.Ok? ==> |r.value| == 4
  {
    var normal := IndexOf(dir);
    if normal < 0 then Err(IndexOutOfBounds)
    else
      var cell := Vec3(f.x, f.y, f.z);
      var pos := if normal % 2 == 0 then cell else Add(cell, dir);
      Ok([pos, Add(pos, NORMAL_TO_DIR1[normal]), Add(Add(pos, NORMAL_TO_DIR1[normal]), NORMAL_TO_DIR2[normal]),
          Add(pos, NORMAL_TO_DIR2[normal])])
  }

  /** The four corners of a face go round a unit square that lies across
      the face's normal `DIRS[n]`, on the plane of the cell's lower side
      along axis `n / 2` for a negative direction and of its upper side for
      a positive one. */
  lemma CornersSquare<V>(f: FaceInfo<V>, dir: Vec3)
    requires dir in DIRS
    ensures Corners(f, dir).Ok?
    ensures var n := IndexOf(dir); var c := Corners(f, dir).value;
            && (forall i :: 0 <= i < 4 ==> Coord(c[i], n / 2) == FaceCoord(f, n / 2) + n % 2)
            && UnitAcross(Sub(c[1], c[0]), n / 2) && UnitAcross(Sub(c[3], c[0]), n / 2)
            && Sub(c[1], c[0]) != Sub(c[3], c[0])
            && c[2] == Add(c[1], Sub(c[3], c[0]))
  {
    var n := IndexOf(dir);
    var c := Corners(f, dir).value;
    var u, w := NORMAL_TO_DIR1[n], NORMAL_TO_DIR2[n];
    assert c[1] == Add(c[0], u) && c[3] == Add(c[0], w) && c[2] == Add(Add(c[0], u), w);
    assert Sub(c[1], c[0]) == u && Sub(c[3], c[0]) == w;
    if n == 0 {
      assert c[0] == Vec3(f.x, f.y, f.z);
    } else if n == 1 {
      assert c[0] == Vec3(f.x + 1, f.y, f.z);
    } else if n == 2 {
      assert c[0] == Vec3(f.x, f.y, f.z);
    } else if n == 3 {
      assert c[0] == Vec3(f.x, f.y + 1, f.z);
    } else if n == 4 {
      assert c[0] == Vec3(f.x, f.y, f.z);
    } else {
      assert c[0] == Vec3(f.x, f.y, f.z + 1);
    }
  }
}
