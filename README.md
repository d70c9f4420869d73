# BeigeEngine voxel store, face extraction and integer cores, in Dafny

This project models the run-length-encoded voxel store of BeigeEngine and
the face extraction that reads it. It also models the two small integer
cores that sit beside the store. Each model comes with proofs of what the
code promises.

- **Runs** (`runs.dfy`). A voxel column is a list of entries
  `(pos, value)`, stored bottom to top.
  - Each entry closes a run: the cells `prev.pos < z <= pos` hold `value`.
  - The lowest run reaches down without bound, and every cell above the
    last entry is empty.
  - The `TreeMap` edits the mutators make are pure functions over an
    ascending entry list: `put`, `subMap(..).clear()`,
    `headMap(..).clear()` and the merging pass of `setDataTree`.
  - The canonical form `setDataTree` leaves behind is proved here, and so
    are the cell values each mutator produces.
- **ColumnWord** (`column_word.dfy`). How `RLEColumn` packs an entry into
  one `long` word, with the position in the low half and the value's code
  in the high half.
- **Column** (`column.dfy`). `RLEColumn` is a class whose `data` field every
  mutator reassigns.
  - `findIndexAbove` is the binary search of the source.
  - `setDataTree` is the source's descending scan, then its write-back,
    which is a plain assignment because the entries are stored decoded.
  - The column iterator is a cursor class.
- **Storage** (`storage.dfy`). `RLEArrayStorage` is a `size` by `size`
  array of column objects. A negative `size` also gets `size * size`
  columns, at coordinates set by Java's truncating `/` and `%`, and
  `columnAt` never reaches them. `RLEMapStorage` is a map that creates columns
  on demand. `IntPos` is the map's key. This module also holds the
  per-column walk of `RLEStorage.copyTo`.
- **Grid** (`grid.dfy`). `RLEStorage`, the base of both grids.
  - It forwards cell operations to the addressed column.
  - It caches `minZ`/`maxZ` behind a dirty flag.
  - `copyTo` overlays one grid onto another.
  - The grid is kept as the entries of its columns by coordinate. A dense
    grid answers `null` outside its square, and a sparse grid creates
    columns lazily. `Grid.ArraySlots` ties this to the object layout of
    `RLEArrayStorage`.
- **IntConverter** (`int_converter.dfy`):
  - the bit fields of `pack` and `unpack`;
  - the integer codec that reserves code 0 for "empty";
  - the integer layouts and empty sentinels of the 2-D and 3-D vector
    codecs.
- **Voxels** (`voxel_renderer.dfy`). The face extraction of `VoxelRenderer`:
  - the bottom and top faces of one column (`generateExposedFaces`);
  - the two-cursor sweep over a column and its neighbour
    (`generateExposedSideFaces`);
  - the loop of the constructor that collects all faces;
  - the bounding box;
  - `VoxelFaceInfo.corners`.
- **IntVectors** (`int_vector.dfy`). The immutable `IntVectorN`. Each
  operation is a method with the source's loop, and its result is tied to
  a specification function.
- **Life** (`game_of_life.dfy`). The toroidal board of the Game of Life
  and its `nextState` step.
- **Java** (`java.dfy`). The shared vocabulary:
  - 32-bit `int` wrap-around;
  - `Math.abs`, `Math.min` and `Math.max`;
  - `null` as `None`;
  - exceptions as an `Err` result.

The model differs from a plain description of the store in two places,
and in both it follows the code:

- Setting cell 7 to `B` in the column `[(5, A), (10, empty)]` gives
  `[(5, A), (6, empty), (7, B)]`. The top empty entry is dropped because
  the merging pass starts with `prev = null` (`Runs.SetScenario`).
- Outside a dense grid's square, `columnAt` answers `null`, and `get`,
  `set` and the other operations delegated to the column then throw.
  These operations do not read the missing column as empty; in the model
  they return `Err(NullPointer)`.

## Model

| member | source | states |
|---|---|---|
| Java.Wrap | src/util/rlestorage/RLEColumn.java:113 | Java `int` arithmetic: a result that fits in an `int` is unchanged |
| Java.WrapShift | src/util/math/IntVectorN.java:193-200 | wrapping an intermediate result does not change the wrapped final result, so a sum wrapped at every step equals the sum wrapped once |
| Java.Abs32 | src/util/math/IntVectorN.java:168 | `Math.abs`: the magnitude, except that `Math.abs(MIN_VALUE)` is `MIN_VALUE` |
| Runs.IndexAbove | src/util/rlestorage/RLEColumn.java:39-54 | the first index whose position is at least `z`, or the length when there is none |
| Runs.Put | src/util/rlestorage/RLEColumn.java:113-114 | `TreeMap.put`: the list stays ascending, the new entry sits at the first index at or above `k`, an entry already at `k` is replaced, and every other entry keeps its order |
| Runs.PutValue | src/util/rlestorage/RLEColumn.java:113-114 | after `put(k, v)`, exactly the cells at or below `k` in `k`'s run read `v`, and every other cell keeps its value |
| Runs.PinValue | src/util/rlestorage/RLEColumn.java:113 | `put(pos - 1, get(pos - 1))` changes no cell; it only pins a boundary below `pos` |
| Runs.ClearRange | src/util/rlestorage/RLEColumn.java:121 | `subMap(lo, hi).clear()`: the list keeps exactly the entries outside `[lo, hi)`, still ascending |
| Runs.ClearRangeValue | src/util/rlestorage/RLEColumn.java:121 | after the clear, a cell whose run was closed by a removed entry reads the value at `hi`, and every other cell keeps its value |
| Runs.ClearBelow | src/util/rlestorage/RLEColumn.java:128 | `headMap(hi).clear()`: the list keeps exactly the entries at or above `hi` |
| Runs.ClearBelowValue | src/util/rlestorage/RLEColumn.java:128 | after the clear, the cells of removed runs read the value at `hi`, and every other cell keeps its value |
| Runs.MergeCanonical | src/util/rlestorage/RLEColumn.java:133-142 | the merging pass yields positions that strictly increase, no entry with the value of the entry above it, and a non-empty top entry |
| Runs.MergeValue | src/util/rlestorage/RLEColumn.java:133-142 | the merging pass changes no cell's value |
| Runs.MergeCanonicalIdentity | src/util/rlestorage/RLEColumn.java:133-142 | merging a canonical list leaves it as it is |
| Runs.CanonicalUnique | src/util/rlestorage/RLEColumn.java:133-151 | two canonical lists that agree on every cell are identical |
| Runs.CanonicalUniqueInt | src/util/rlestorage/RLEColumn.java:133-151 | two canonical lists of `int` positions that agree on every `int` cell are identical |
| Runs.TopIsFull | src/util/rlestorage/RLEColumn.java:133-142 | in canonical form, the top entry closes a non-empty run, so `maxPos` names a full cell for values that survive their converter (see `Column.RLEColumn` under Left out) |
| Runs.OutsideIntValue | src/util/rlestorage/RLEColumn.java:56-63 | with `int` positions, every cell below `MIN_VALUE` reads like `MIN_VALUE`, and every cell above `MAX_VALUE` is empty |
| Runs.SetRuns | src/util/rlestorage/RLEColumn.java:111-116 | the entries `set` leaves are canonical |
| Runs.SetRunsValue | src/util/rlestorage/RLEColumn.java:111-116 | after `set(pos, t)`, cell `pos` reads `t` and every other `int` cell is unchanged, `pos == MIN_VALUE` included |
| Runs.SetRangeRuns | src/util/rlestorage/RLEColumn.java:118-124 | the entries `setRange` leaves are canonical |
| Runs.SetRangeRunsValue | src/util/rlestorage/RLEColumn.java:118-124 | after `setRange(lo, hi, t)`, the cells `lo..hi` read `t` and every other cell is unchanged |
| Runs.SetRangeInfiniteRuns | src/util/rlestorage/RLEColumn.java:126-131 | the entries `setRangeInfinite` leaves are canonical |
| Runs.SetRangeInfiniteRunsValue | src/util/rlestorage/RLEColumn.java:126-131 | after `setRangeInfinite(hi, t)`, every cell at or below `hi` reads `t` and the cells above `hi` are unchanged |
| Runs.SetRunsAllInt | src/util/rlestorage/RLEColumn.java:111-116 | after `set`, every stored position is still a Java `int`, though `pos - 1` is computed with wrap-around |
| Runs.SetRangeRunsAllInt | src/util/rlestorage/RLEColumn.java:118-124 | after `setRange`, every stored position is still a Java `int` |
| Runs.SetRangeInfiniteRunsAllInt | src/util/rlestorage/RLEColumn.java:126-131 | after `setRangeInfinite`, every stored position is still a Java `int` |
| Runs.SetRunsUnchanged | src/util/rlestorage/RLEColumn.java:111-116 | writing the value a cell already holds leaves the stored entries exactly as they were |
| Runs.SetRunsOverwrite | src/util/rlestorage/RLEColumn.java:111-116 | of two writes to one cell, the last wins, entry for entry |
| Runs.SetRangeSingleCell | src/util/rlestorage/RLEColumn.java:111-124 | `setRange(pos, pos, t)` stores exactly what `set(pos, t)` stores |
| Runs.SetRangeInfiniteFromBottom | src/util/rlestorage/RLEColumn.java:118-131 | `setRangeInfinite(hi, t)` stores exactly what `setRange(MIN_VALUE, hi, t)` stores |
| Runs.UniformRange | src/util/rlestorage/RLEColumn.java:105-109 | both ends read through one entry and `hi` reads `t`, exactly when every cell from `lo` to `hi` reads `t` |
| Runs.StepInRange | src/util/rlestorage/RLEColumn.java:105-109 | when an entry lies in `[lo, hi)`, some cell of the range differs from the cell above it |
| Runs.SetScenario | src/util/rlestorage/RLEColumn.java:111-116 | setting cell 7 to `B` in `[(5, A), (10, empty)]` gives `[(5, A), (6, empty), (7, B)]` |
| Runs.Shift | src/util/rlestorage/RLEStorage.java:30-33 | the source entries moved up by `z`, in the same order, with the same values |
| Runs.ShiftValue | src/util/rlestorage/RLEStorage.java:30-33 | the shifted column reads at `w` what the source column reads at `w - z` |
| Runs.OverlayAll | src/util/rlestorage/RLEStorage.java:24-36 | after the walk of `copyTo` over a non-empty column, every target cell is as `Overlaid` says |
| Runs.OverlaidRegions | src/util/rlestorage/RLEStorage.java:24-36 | an overlay copies the source, empty cells included, from just above its first entry to its last entry; at or below the first entry it copies the lowest run only when that run is not empty; above the last entry it leaves the target alone |
| ColumnWord.BlockCode | src/util/rlestorage/RLEColumn.java:27-29 | the high 32 bits of the word, as an `int` congruent to them modulo 2^32 and equal to them below 2^31 |
| ColumnWord.Position | src/util/rlestorage/RLEColumn.java:101-103 | the low 32 bits of the word, as an `int` congruent to the word modulo 2^32 and equal to them below 2^31 |
| ColumnWord.MakeData | src/util/rlestorage/RLEColumn.java:89-91 | `makeData` as written, with the `int` position sign-extended, always gives a 64-bit word |
| ColumnWord.MakeDataHalves | src/util/rlestorage/RLEColumn.java:89-91 | the position always reads back; the code reads back only for a position that is not negative, and otherwise one less |
| ColumnWord.NegativePositionLosesValue | src/util/rlestorage/RLEColumn.java:89-91 | the value 0 stored at position -1 reads back as code 0, the empty sentinel |
| ColumnWord.MakeWord | src/util/rlestorage/RLEColumn.java:89-91 | the corrected packing, with the position zero-extended, gives a 64-bit word |
| ColumnWord.MakeWordRoundTrip | src/util/rlestorage/RLEColumn.java:101-103 | with the corrected packing, both the position and the code read back for every position |
| ColumnWord.MakeWordAgrees | src/util/rlestorage/RLEColumn.java:89-91 | the corrected packing agrees with the written one exactly on the positions that are not negative |
| Column.RLEColumn.constructor | src/util/rlestorage/RLEColumn.java:18-25 | a new column has its coordinates and no entry |
| Column.RLEColumn.FindIndexAbove | src/util/rlestorage/RLEColumn.java:39-54 | the binary search returns the first index whose position is at least `pos`, or the length when there is none |
| Column.RLEColumn.Get | src/util/rlestorage/RLEColumn.java:56-63 | the value of cell `pos`: the first entry at or above it, or empty above the last entry |
| Column.RLEColumn.IsEmpty | src/util/rlestorage/RLEColumn.java:65-67 | true exactly when there is no entry, and exactly when every cell is empty |
| Column.RLEColumn.MaxPos | src/util/rlestorage/RLEColumn.java:93-95 | on an empty column, an index error; otherwise the last entry's position, a non-empty cell with only empty cells above it |
| Column.RLEColumn.MinPos | src/util/rlestorage/RLEColumn.java:97-99 | on an empty column, an index error; otherwise the first entry's position, the lowest boundary, below which every cell reads like the boundary |
| Column.RLEColumn.RangeEquals | src/util/rlestorage/RLEColumn.java:105-109 | an index error exactly when both ends lie above the last entry and `t` is not empty; otherwise, for `posMin <= posMax`, true exactly when every cell of the range reads `t` |
| Column.RLEColumn.Set | src/util/rlestorage/RLEColumn.java:111-116 | the entries become `SetRuns` of the old ones, so cell `pos` reads `t` and every other cell keeps its value |
| Column.RLEColumn.SetRange | src/util/rlestorage/RLEColumn.java:118-124 | an argument error, with nothing written, exactly when `posMin > posMax`; otherwise the cells `posMin..posMax` read `t` and every other cell keeps its value |
| Column.RLEColumn.SetRangeInfinite | src/util/rlestorage/RLEColumn.java:126-131 | every cell at or below `posMax` reads `t`; the cells above keep their values |
| Column.RLEColumn.SetDataTree | src/util/rlestorage/RLEColumn.java:133-151 | the column ends up holding the merge of the edited map, in canonical form |
| Column.RLEColumn.MergeDescending | src/util/rlestorage/RLEColumn.java:134-142 | the descending scan with `iterator.remove()` leaves exactly the merged entries |
| Column.RLEColumn.Iterator | src/util/rlestorage/RLEColumn.java:69-72 | a fresh cursor over this column's entries, at the bottom |
| Column.ColumnIterator.HasNext | src/util/rlestorage/RLEColumn.java:74-77 | true exactly when entries remain past the cursor |
| Column.ColumnIterator.Next | src/util/rlestorage/RLEColumn.java:80-84 | inside the entries, the entry under the cursor, after which the cursor advances; past the end, an index error |
| Storage.IntPosEquals | src/util/rlestorage/RLEMapStorage.java:35-54 | `equals` holds exactly for a non-null key with the same coordinates |
| Storage.IntPosHash | src/util/rlestorage/RLEMapStorage.java:56-62 | the hash is `73 * (73 * 7 + x) + y` modulo 2^32, and exactly that value when no step overflows |
| Storage.HashConsistent | src/util/rlestorage/RLEMapStorage.java:56-62 | equal keys have equal hash codes |
| Storage.HashCollision | src/util/rlestorage/RLEMapStorage.java:56-62 | the different keys `(0, 73)` and `(1, 0)` share a hash code |
| Storage.IndexLayout | src/util/rlestorage/RLEArrayStorage.java:29 | an in-range pair's index `size * x + y` lies in the array, and `i / size`, `i % size` give the pair back |
| Storage.IndexCoords | src/util/rlestorage/RLEArrayStorage.java:14-15 | every array index gives an in-range pair, and that pair's index is the index again |
| Storage.RLEArrayStorage.constructor | src/util/rlestorage/RLEArrayStorage.java:11-17 | `size * size` fresh empty columns, also for a negative `size`; slot `i` holds the column at `(i / size, i % size)` with Java's truncating division |
| Storage.RLEArrayStorage.At | src/util/rlestorage/RLEArrayStorage.java:29 | the column at an in-range pair has that pair's coordinates |
| Storage.RLEArrayStorage.ColumnAt | src/util/rlestorage/RLEArrayStorage.java:24-30 | `null` exactly outside the square; otherwise the column with those coordinates |
| Storage.RLEArrayStorage.ColumnsDistinct | src/util/rlestorage/RLEArrayStorage.java:29 | distinct in-range pairs address distinct columns |
| Storage.RLEArrayStorage.AllColumns | src/util/rlestorage/RLEArrayStorage.java:19-22 | all `size * size` columns in slot order; for a non-negative `size` exactly the columns of the square, for a negative one columns that no `columnAt` reaches |
| Storage.RLEMapStorage.constructor | src/util/rlestorage/RLEMapStorage.java:8-13 | a new map storage has no column |
| Storage.RLEMapStorage.ColumnAt | src/util/rlestorage/RLEMapStorage.java:20-24 | never `null`; the column has the coordinates asked for; an existing column is returned and the map is unchanged; otherwise only the key `(x, y)` is added, with a fresh empty column |
| Storage.RLEMapStorage.AllColumns | src/util/rlestorage/RLEMapStorage.java:15-18 | exactly the columns created so far, with no coordinate listed twice |
| Storage.CopyColumn | src/util/rlestorage/RLEStorage.java:24-36 | after the iterator walk with `prev`, every `int` cell of the target column is the source column overlaid at offset `z` |
| Grid.Created | src/util/rlestorage/RLEMapStorage.java:22 | `columnAt` adds at most the key asked for and changes no column's entries |
| Grid.SetCellValues | src/util/rlestorage/RLEStorage.java:73-76 | a grid `set` changes exactly one cell of one column |
| Grid.SetRangeCellValues | src/util/rlestorage/RLEStorage.java:78-81 | a grid `setRange` changes exactly the cells of the range in one column |
| Grid.SetRangeInfiniteCellValues | src/util/rlestorage/RLEStorage.java:83-86 | a grid `setRangeInfinite` changes exactly the cells at or below `zMax` in one column |
| Grid.BoundsCreated | src/util/rlestorage/RLEMapStorage.java:22 | creating an empty column moves neither boundary of the grid |
| Grid.AboveBoundsEmpty | src/util/rlestorage/RLEStorage.java:59-71 | above the recomputed `maxZ`, every cell of the grid is empty |
| Grid.BelowBoundsUniform | src/util/rlestorage/RLEStorage.java:59-71 | at or below the recomputed `minZ`, every column reads its lowest run |
| Grid.BoundsTight | src/util/rlestorage/RLEStorage.java:59-71 | when some column has an entry, some column holds a value at `maxZ`, for values that survive their converter (see `Column.RLEColumn` under Left out) |
| Grid.OriginTarget | src/util/rlestorage/RLEStorage.java:22 | the offset `(c.x + x, c.y + y)`, wrapped as Java `int`s, can be undone, so distinct source columns go to distinct target columns |
| Grid.ScanBounds | src/util/rlestorage/RLEStorage.java:59-71 | the scan's result is the least `minPos` and greatest `maxPos` of the non-empty columns, or `MAX_VALUE`/`MIN_VALUE` when every column is empty |
| Grid.CopyToStaleCache | src/util/rlestorage/RLEStorage.java:20-39 | a target whose cache was right before `copyTo` can hold a wrong cache after it, because `copyTo` leaves the flag down |
| Grid.RLEStorage.Dense | src/util/rlestorage/RLEArrayStorage.java:11-17 | an empty column at every slot pair, which for a non-negative `size` is every pair of the square, with the flag raised |
| Grid.ArraySlots | src/util/rlestorage/RLEArrayStorage.java:11-30 | every slot of the object array holds the column of a `Slot` pair, and its `columnAt` answers `null` exactly outside a dense square, as the value model of the grid says |
| Grid.RLEStorage.Sparse | src/util/rlestorage/RLEMapStorage.java:8-13 | no column, with the flag raised |
| Grid.RLEStorage.ColumnAt | src/util/rlestorage/RLEArrayStorage.java:24-30 | `null` exactly outside a dense square; otherwise a column holding the entries at `(x, y)`, which a sparse grid creates empty |
| Grid.RLEStorage.ColumnIteratorAt | src/util/rlestorage/RLEStorage.java:16-18 | a null-pointer error outside a dense square; otherwise a cursor at the bottom of the addressed column |
| Grid.RLEStorage.Get | src/util/rlestorage/RLEStorage.java:41-43 | a null-pointer error outside a dense square; otherwise the cell's value; the flag is untouched and a right cache stays right |
| Grid.RLEStorage.RangeEquals | src/util/rlestorage/RLEStorage.java:55-57 | a null-pointer error outside the square; otherwise the column's answer: an index error exactly when both ends lie above the column's last entry and `t` is not empty, else whether every cell of the range reads `t`; the flag is untouched |
| Grid.RLEStorage.Set | src/util/rlestorage/RLEStorage.java:73-76 | a null-pointer error outside the square, with nothing changed; otherwise only cell `(x, y, z)` changes, to `t`, the only column that may be created is `(x, y)`, and the flag is raised |
| Grid.RLEStorage.SetRange | src/util/rlestorage/RLEStorage.java:78-81 | a null-pointer error outside the square; an argument error when `zMin > zMax`, with no cell changed and the flag as it was; otherwise only the range changes, the only column that may be created is `(x, y)`, and the flag is raised |
| Grid.RLEStorage.SetRangeInfinite | src/util/rlestorage/RLEStorage.java:83-86 | a null-pointer error outside the square; otherwise only the cells at or below `zMax` of `(x, y)` change, the only column that may be created is `(x, y)`, and the flag is raised |
| Grid.RLEStorage.RecomputeMinMax | src/util/rlestorage/RLEStorage.java:59-71 | with the flag raised, the cache becomes the bounds of all columns; with it down, the cache is left as it was; the flag ends down |
| Grid.RLEStorage.MinZ | src/util/rlestorage/RLEStorage.java:50-53 | the flag ends down; from a coherent cache the result is the true lowest boundary of the grid; with the flag already down, the cached value is returned and nothing is recomputed |
| Grid.RLEStorage.MaxZ | src/util/rlestorage/RLEStorage.java:45-48 | the flag ends down; from a coherent cache the result is the true highest boundary of the grid; with the flag already down, the cached value is returned and nothing is recomputed |
| Grid.RLEStorage.CopyTo | src/util/rlestorage/RLEStorage.java:20-39 | every target cell is the source column brought to it by the offsets, overlaid at `z`, unless the target is outside a dense square; other cells are unchanged; the target gains a column at exactly the addressed pairs it does not answer `null` for |
| Grid.RLEStorage.Paste | src/util/rlestorage/RLEStorage.java:22-37 | `columnAt` of the target, skipped when `null`, then the overlay of one source column; only that pair may gain a column, and no other column changes |
| Grid.RLEStorage.PasteColumn | src/util/rlestorage/RLEStorage.java:21-38 | one turn of `forEach`: once the column at `p` is pasted, the target holds the overlay of every source column done so far, and columns at exactly their reachable targets beyond its own |
| Grid.RLEStorage.CopyToMarked | src/util/rlestorage/RLEStorage.java:20-39 | the same cells and columns as `copyTo`, with the target's flag raised so its cache stays coherent |
| IntConverter.Unpack | src/util/rlestorage/IntConverter.java:18-20 | an unpacked field lies in `[0, 2^(size mod 32))`; Java reduces a shift distance modulo 32 |
| IntConverter.Pack | src/util/rlestorage/IntConverter.java:12-14 | for a field that fits the 32 bits, the pattern is the value's low `size` bits moved up by `pos`, clear below `pos` and at or above `pos + size` |
| IntConverter.PackLayout | src/util/rlestorage/IntConverter.java:12-14 | a packed field is the value's low `size` bits moved up by `pos`, with no bit below `pos` or at or above `pos + size` |
| IntConverter.UnpackPack | src/util/rlestorage/IntConverter.java:12-20 | unpacking a packed field gives the value's low `size` bits |
| IntConverter.UnpackField | src/util/rlestorage/IntConverter.java:12-20 | a field placed above a lower part reads back unchanged from their sum |
| IntConverter.IntToInt | src/util/rlestorage/IntConverter.java:32-38 | code 0 exactly for `null` and -1; any other value is shifted up by one, `MAX_VALUE` wrapping to `MIN_VALUE` |
| IntConverter.IntFromInt | src/util/rlestorage/IntConverter.java:24-30 | `null` exactly for code 0; otherwise the code shifted down by one, `MIN_VALUE` wrapping to `MAX_VALUE` |
| IntConverter.IntCodeRoundTrip | src/util/rlestorage/IntConverter.java:24-38 | every code decodes and encodes back to itself |
| IntConverter.IntValueRoundTrip | src/util/rlestorage/IntConverter.java:24-38 | a value survives the integer codec, with `int` wrap-around, exactly when it is not -1 |
| IntConverter.IntMinusOneIsEmpty | src/util/rlestorage/IntConverter.java:24-38 | -1 and `null` share the code 0, so -1 decodes as `null` |
| IntConverter.Vec2dToInt | src/util/rlestorage/IntConverter.java:55-63 | `null` is the sentinel `C`; both quantised components read back from their 16-bit fields |
| IntConverter.Vec2dFromInt | src/util/rlestorage/IntConverter.java:46-53 | `null` exactly for the sentinel `C`; otherwise two components in `[0, C]` |
| IntConverter.Vec2dLayout | src/util/rlestorage/IntConverter.java:50-62 | two quantised 16-bit fields sit side by side, and their sum fits 32 bits |
| IntConverter.Vec2dRoundTrip | src/util/rlestorage/IntConverter.java:43-63 | a quantised 2-D vector survives the codec exactly when it is not `(C, 0)`, whose code is the `null` sentinel `C` |
| IntConverter.Vec2dEmptyRoundTrip | src/util/rlestorage/IntConverter.java:47-59 | `null` survives the 2-D codec |
| IntConverter.SentinelFields | src/util/rlestorage/IntConverter.java:47-51 | the sentinel `C` is the field pair `(C, 0)`, which is why that quantised vector reads back as `null` |
| IntConverter.Vec3dToInt | src/util/rlestorage/IntConverter.java:81-90 | `null` is -1; three quantised 10-bit fields pack side by side to a code in `[0, 2^30)`, never the sentinel -1 |
| IntConverter.Vec3dFromInt | src/util/rlestorage/IntConverter.java:70-79 | `null` exactly for -1; otherwise three components in `[0, C]` |
| IntConverter.Vec3dRoundTrip | src/util/rlestorage/IntConverter.java:71-90 | every quantised 3-D vector survives the codec |
| IntConverter.Vec3dEmptyRoundTrip | src/util/rlestorage/IntConverter.java:72-85 | `null` survives the 3-D codec |
| Voxels.ColumnEntries | src/graphics/voxels/VoxelRenderer.java:108-111 | a `null` column iterates as no entries; any other column as its own entries |
| Voxels.GenerateExposedFaces | src/graphics/voxels/VoxelRenderer.java:113-129 | the bottom faces of the column go after `quads1` and its top faces after `quads2`, in the order of the loop |
| Voxels.UpFacesExposed | src/graphics/voxels/VoxelRenderer.java:119-128 | the top faces of a canonical column are exactly its full cells with an empty cell above, each with its voxel |
| Voxels.DownFacesExposed | src/graphics/voxels/VoxelRenderer.java:119-127 | the bottom faces of a column are exactly its full cells with an empty cell below, each with its voxel |
| Voxels.FaceBalance | src/graphics/voxels/VoxelRenderer.java:119-128 | a canonical column has one top face per bottom face, and one more when its lowest run is full |
| Voxels.SideExposed | src/graphics/voxels/VoxelRenderer.java:144-158 | the faces of a run lie in `(lo, hi]` with strictly increasing `z`, so no cell gets two |
| Voxels.SideExposedMembers | src/graphics/voxels/VoxelRenderer.java:140-165 | a face is listed exactly for the cells of `(lo, hi]` where this column is full and the neighbour empty, with this column's voxel |
| Voxels.GenerateExposedSideFaces | src/graphics/voxels/VoxelRenderer.java:131-166 | the sweep appends to `quads` the side faces of `SideFaces`: nothing for an empty column, otherwise the faces from just above the lower of the two first keys up to this column's last key, as `SideExposedMembers` characterises them |
| Voxels.Sweep | src/graphics/voxels/VoxelRenderer.java:139-165 | the loop, one entry of one cursor per turn, adds exactly `SideFaces` |
| Voxels.SideFaceMember | src/graphics/voxels/VoxelRenderer.java:131-166 | a side face is a full cell of this column beside an empty cell of the neighbour |
| Voxels.SideFacesExposed | src/graphics/voxels/VoxelRenderer.java:131-166 | every side face toward a horizontal direction can be seen: its cell holds the voxel and the neighbouring cell, found with `int` wrap-around, is empty |
| Voxels.ColumnQuads | src/graphics/voxels/VoxelRenderer.java:58-61 | one list per direction, in the order of `DIRS` |
| Voxels.AddColumn | src/graphics/voxels/VoxelRenderer.java:58-61 | one column to draw extends each direction's list by its faces in that direction |
| Voxels.FindQuads | src/graphics/voxels/VoxelRenderer.java:52-62 | the constructor's loop collects the faces of every column to draw, in order |
| Voxels.ColumnQuadsExposed | src/graphics/voxels/VoxelRenderer.java:58-61 | every face one column adds is a full cell whose neighbour in that direction is empty |
| Voxels.QuadsExposed | src/graphics/voxels/VoxelRenderer.java:52-62 | every face the constructor collects can be seen |
| Voxels.MinCoord | src/graphics/voxels/VoxelRenderer.java:66-68 | the least coordinate over the faces, reached by some face |
| Voxels.MaxCoord | src/graphics/voxels/VoxelRenderer.java:63-65 | the greatest coordinate over the faces, reached by some face |
| Voxels.BoundingBox | src/graphics/voxels/VoxelRenderer.java:63-68 | `getAsInt` throws exactly when there is no face |
| Voxels.BoundingBoxContains | src/graphics/voxels/VoxelRenderer.java:63-68 | every face's cell lies in the box, from `min` inclusive to `max` exclusive on each axis |
| Voxels.BoxMin | src/graphics/voxels/VoxelRenderer.java:66-68 | the box starts at the least coordinate |
| Voxels.BoxMax | src/graphics/voxels/VoxelRenderer.java:63-65 | the box ends one past the greatest coordinate |
| Voxels.BoundingBoxExists | src/graphics/voxels/VoxelRenderer.java:63-68 | the box exists once one column to draw has an entry, whose top always shows a face |
| Voxels.IndexOf | src/graphics/voxels/VoxelRenderer.java:235 | `DIRS.indexOf`: the first index holding the direction, or -1 exactly when there is none |
| Voxels.Corners | src/graphics/voxels/VoxelRenderer.java:234-238 | an index error exactly for a direction outside `DIRS`; otherwise four corners |
| Voxels.CornersSquare | src/graphics/voxels/VoxelRenderer.java:207-238 | the four corners go round a unit square across the normal, on the cell's lower side for a negative direction and its upper side for a positive one |
| IntVectors.Of | src/util/math/IntVectorN.java:49-53 | a copy of the given components |
| IntVectors.Filled | src/util/math/IntVectorN.java:86-89 | a negative size throws; otherwise `dim` components, all `c` |
| IntVectors.Zeros | src/util/math/IntVectorN.java:75-77 | a negative size throws; otherwise `dim` components, all 0 |
| IntVectors.Ones | src/util/math/IntVectorN.java:61-67 | `dim` ones, or the negative-size error |
| IntVectors.Basis | src/util/math/IntVectorN.java:30-37 | an argument error exactly when `index` is outside `[0, dim)`; otherwise 1 at `index` and 0 elsewhere |
| IntVectors.BasisVector | src/util/math/IntVectorN.java:30-37 | the loop-free construction returns `Basis(dim, index)` |
| IntVectors.AssertDimEquals | src/util/math/IntVectorN.java:121-128 | passes exactly when the dimension is `dim`, else an argument error |
| IntVectors.AssertDimMatches | src/util/math/IntVectorN.java:135-139 | passes exactly when the dimensions match, else an argument error |
| IntVectors.Get | src/util/math/IntVectorN.java:228-233 | the component at an index inside the vector, else an argument error |
| IntVectors.Set | src/util/math/IntVectorN.java:311-320 | the copying loop gives the vector with `value` at `index`, or the argument error |
| IntVectors.GetUpdated | src/util/math/IntVectorN.java:311-320 | `set` fails exactly where `get` does; after it, `get` reads the value at `index` and the old components elsewhere |
| IntVectors.Add | src/util/math/IntVectorN.java:98-105 | the componentwise wrapped sum, or an argument error on a dimension mismatch |
| IntVectors.Sub | src/util/math/IntVectorN.java:337-344 | the componentwise wrapped difference, or an argument error on a dimension mismatch |
| IntVectors.Mult | src/util/math/IntVectorN.java:285-291 | the componentwise wrapped product with the scalar |
| IntVectors.SubUndoesAdd | src/util/math/IntVectorN.java:337-344 | `u.add(v).sub(v)` is `u`, even where the sum wrapped |
| IntVectors.AddUndoesSub | src/util/math/IntVectorN.java:98-105 | `u.sub(v).add(v)` is `u` |
| IntVectors.ZeroLaws | src/util/math/IntVectorN.java:75-77 | `zeros` is the identity of `add`, and `u.sub(u)` is `zeros` |
| IntVectors.MultMinusOneNegates | src/util/math/IntVectorN.java:285-291 | `u.add(u.mult(-1))` is `zeros` |
| IntVectors.ScaledOnes | src/util/math/IntVectorN.java:285-291 | `ones(dim).mult(c)` is the constant vector `c` |
| IntVectors.Dot | src/util/math/IntVectorN.java:193-200 | the loop's sum, wrapped at every step, is the sum of products wrapped once, or an argument error on a dimension mismatch |
| IntVectors.DotCommutes | src/util/math/IntVectorN.java:193-200 | `u.dot(v) == v.dot(u)` |
| IntVectors.DotBasis | src/util/math/IntVectorN.java:193-200 | the dot product with `basisVector(dim, index)` is component `index` |
| IntVectors.Contains | src/util/math/IntVectorN.java:165-175 | the early-return loop gives `Contained`, the value the code computes |
| IntVectors.ContainedInRange | src/util/math/IntVectorN.java:165-175 | away from `MIN_VALUE` in the receiver, `contains(v)` holds exactly when every component of `v` lies between 0 and the receiver's |
| IntVectors.ContainsMinValue | src/util/math/IntVectorN.java:168-170 | `[MIN_VALUE]` does not contain `[0]`, though 0 lies in its interval |
| IntVectors.ContainsInSector | src/util/math/IntVectorN.java:165-175 | the corrected `contains` holds exactly when every component lies between 0 and the receiver's |
| IntVectors.Equals | src/util/math/IntVectorN.java:203-220 | the loop gives `EqualAsWritten`: not `null`, same dimension, and no difference whose `Math.abs` is positive |
| IntVectors.EqualAsWrittenMeans | src/util/math/IntVectorN.java:203-220 | `equals` holds exactly when the dimensions match and every difference is 0 or wraps to `MIN_VALUE` |
| IntVectors.EqualsMinValue | src/util/math/IntVectorN.java:214-218 | `[0]` equals `[MIN_VALUE]` under the written test |
| IntVectors.EqualsExact | src/util/math/IntVectorN.java:203-220 | the corrected `equals` holds exactly for the same vector |
| IntVectors.NatString | src/util/math/IntVectorN.java:353 | `Integer.toString` of a non-negative number is its decimal digits |
| IntVectors.IntString | src/util/math/IntVectorN.java:353 | an `int` prints as a non-empty string without commas or spaces |
| IntVectors.IntStringRoundTrip | src/util/math/IntVectorN.java:353 | reading back a printed `int` gives it |
| IntVectors.ToString | src/util/math/IntVectorN.java:346-356 | the loop builds `"["`, the components joined by `", "`, and `"]"` |
| IntVectors.ToStringRoundTrip | src/util/math/IntVectorN.java:346-356 | reading back what `toString` writes gives the components |
| Life.Mod | src/examples/GameOfLife.java:106 | a board coordinate in `[0, SIZE)` |
| Life.Board.constructor | src/examples/GameOfLife.java:29-30 | a `SIZE` by `SIZE` board of dead cells |
| Life.Board.Set | src/examples/GameOfLife.java:125-127 | exactly the cell `get(x, y)` reads takes the new value |
| Life.Board.CountBlock | src/examples/GameOfLife.java:113-118 | the `i` and `j` loops count the live cells of the 3 by 3 block around the cell |
| Life.Board.NextState | src/examples/GameOfLife.java:109-123 | a fresh array in which each cell is alive exactly when the block holds 3, or 4 with the cell alive; the board is not written |
| Life.Board.Step | src/examples/GameOfLife.java:82-84 | `STATE = nextState()` replaces the board by its next generation |
| Life.Board.NeighborCountSplit | src/examples/GameOfLife.java:113-118 | the block count is the eight neighbours plus the cell itself |
| Life.Board.NextCellIsConway | src/examples/GameOfLife.java:119 | the rule is Conway's B3/S23 on the eight neighbours |
| Life.Board.NeighborCountBounds | src/examples/GameOfLife.java:113-118 | the block count lies between 0 and 9 |
| Life.Board.Get | src/examples/GameOfLife.java:105-107 | a pair on the board reads that cell of `STATE` |
| Life.Board.Torus | src/examples/GameOfLife.java:105-107 | the board wraps round: moving `SIZE` along either axis reads the same cell |

## Left out

- Grid.RLEStorage: columns shared between a grid and its callers are not modelled. `columnAt` hands out a fresh column holding the entries at `(x, y)`, and a caller's later writes to that column object do not reach the grid.
- Grid.RLEStorage: the two grid classes are one class with a `dense` flag. The abstract `allColumns`/`columnAt` dispatch of `RLEStorage` is that flag, because the model has no inheritance.
- Grid.RLEStorage.CopyTo: copying a grid onto itself (`other == this`) is excluded. There the walk reads columns it is writing.
- Grid.RLEStorage.CopyTo: the order in which `allColumns` streams the columns is left free. `HashMap` order is unspecified, and so is the order of the `RLEArrayStorage` array, since the result does not depend on it.
- Storage.RLEArrayStorage.constructor: requires `size * size` to fit an `int`, that is `|size| <= 46340`. For a larger `|size|` the Java product wraps: a negative length throws `NegativeArraySizeException`, and a non-negative one (0 for 65536) builds a shorter array that `columnAt` can index out of bounds. Negative sizes within the bound are modelled.
- Grid.RLEStorage.Dense: requires `size * size` to fit an `int`, for the same reason as `Storage.RLEArrayStorage.constructor`. Negative sizes within the bound are modelled: the grid keeps `size * size` empty columns that no `columnAt` reaches.
- Storage.CopyColumn: requires that `e.getKey() + z` does not overflow an `int`. The wrap-around case is not modelled.
- Grid.RLEStorage.CopyTo: requires that every shifted key `pos + z` of every source column is an `int` (the same overflow as `Storage.CopyColumn`). Offsets where Java wraps a key are not modelled.
- Grid.RLEStorage.CopyToMarked: the same overflow precondition as `Grid.RLEStorage.CopyTo`.
- Column.RLEColumn: cell arguments are Java `int`s. `pos - 1` at `MIN_VALUE` is modelled with its wrap-around.
- Column.RLEColumn: stores decoded entries. On the packing, a column reads back as with the corrected `ColumnWord.MakeWord`. The written packing, which loses one from the code at negative positions, is modelled and shown in `ColumnWord`.
- Column.RLEColumn: the model assumes that every stored value survives its converter, `fromInt(toInt(t)) == t`. Two values do not, as `IntConverter.IntMinusOneIsEmpty` and `IntConverter.Vec2dRoundTrip` prove: `IntegerConverter`'s -1 (code 0) and `Vec2dConverter`'s quantised `(C, 0)` (the sentinel code `C`). In the source, `setDataTree` merges on the values before encoding them (RLEColumn.java:136-148), and `get` decodes them back (RLEColumn.java:27-29, 56-63). So such a value reads back as `null`. An empty column after `set(5, -1)` keeps the entries `(4, null)` and `(5, -1)`: `get(5)` is `null`, `isEmpty()` is false, and the top entry is empty. `maxPos` (and a grid's `maxZ`) can then name an empty cell. The model instead reads `-1` back at 5, and `Runs.TopIsFull` and `Grid.BoundsTight` hold only for values that survive the converter.
- Column.RLEColumn and Voxels: values are compared with value equality. The source's `==` on references can fail to merge equal boxed values outside the small-integer cache, and the model does not capture that.
- Column.ColumnIterator: the iterator is a cursor into the column's live entries. It is not a snapshot of the array.
- Voxels.ValidColumns: the columns the renderer reads are assumed to come from `RLEColumn`s, in canonical form with `int` positions.
- Voxels.BoundingBoxContains: says nothing about a face at `Integer.MAX_VALUE`, where `max + 1` wraps.
- Voxels: `toDraw` is a list of integer coordinates; the `floor` of the source's `Vec2d` doubles is not modelled.
- Voxels: the OpenGL parts of `VoxelRenderer` are not modelled: the vertex buffers, `Core.onMainThread`, the draw gate, the vertex arrays, the frustum and back-face tests, and `cleanup`. They are foreign calls and floating-point matrices.
- IntConverter: the double quantisation of the vector codecs is not modelled: `clamp`, `round` and the division by `C`. It is floating point, so only the integer field layout and the sentinels are modelled, on already quantised components.
- IntVectors: the double-valued `div`, `mult(double)`, `length` and `lengthSquared` are floating point.
- IntVectors: `hashCode`, `iterator`, `stream`, `asArray`, `toVectorN`, `fromStream` and the `x`/`y`/`z`/`w` accessors are not modelled. They are stream and library plumbing.
- IntVectors.Equals: an argument of another class is not modelled. It is `false` in the source.
- Life: `main` is not modelled except its `STATE = nextState()` step. That covers input, the camera, drawing and `Math.random`.
- Life.Mod: `MathUtils.mod` is not part of this model; it is taken to be the non-negative remainder.

## Findings

| source | as written | input that shows it | evidently intended | confidence | as-written member | corrected member |
|---|---|---|---|---|---|---|
| src/util/rlestorage/RLEColumn.java:89-91 | `pos + ((long) code << 32)` sign-extends a negative `pos`, which borrows one from the code in the high half | position -1 with the integer value 0 (code 1) reads back as code 0, which is empty | the position zero-extended into the low half, so that both halves read back | high, not executed | ColumnWord.NegativePositionLosesValue | ColumnWord.MakeWordRoundTrip |
| src/util/math/IntVectorN.java:214-218 | `Math.abs(vec[i] - w.vec[i]) > 0` is false when the difference wraps to `MIN_VALUE` | `[0].equals([MIN_VALUE])` is true | components compared for equality | high, not executed | IntVectors.EqualsMinValue | IntVectors.EqualsExact |
| src/util/math/IntVectorN.java:165-175 | `Math.abs(MIN_VALUE)` is negative, so no component fits under it | `[MIN_VALUE].contains([0])` is false | true exactly when every component lies between 0 and the receiver's | high, not executed | IntVectors.ContainsMinValue | IntVectors.ContainsInSector |
| src/util/rlestorage/RLEStorage.java:20-39 | `copyTo` writes the target's columns directly and leaves the target's recompute flag down | target with one column up to 5, `maxZ()` read; then a column up to 10 copied in; `maxZ()` still answers 5 | the target's flag raised, as its own `set` would do | medium, not executed | Grid.CopyToStaleCache | Grid.RLEStorage.CopyToMarked |
