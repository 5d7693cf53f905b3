# Cossin Lette core, modelled in Dafny

Cossin Lette is a small MonoGame/ECS game with a level editor. This project
models the parts of it that are exact, sequential logic, and proves what
they do:

- the spatial hash `SpatialMap<T>` and its axis-aligned boxes `AABB`: cell
  ranges, packed 64-bit cell keys, cell enumeration that may create cells,
  region queries, insert, remove and update;
- the generational allocators `GenIdxAllocator`/`GenArr<T>` and the older
  `GenerationalIndexAllocator`;
- the 64-bit flag set `Flags<T>`, the enum-indexed `EnumArray<K, V>`, and
  the helpers `FFloor`, `FCeil`, `GetOrCreate` and `TakeUntil`;
- the editor's undo/redo `HistoryStack` and the observable `ListenableValue<T>`;
- `LoaderSystem<H, R>`, which gives every component one cached handle per
  distinct source string;
- the JSON converters for `Rectangle` and `Vector2`, which read and write
  fixed-shape JSON arrays of numbers (sections 5 and 6 of RFC 8259);
- the bookkeeping in the vendored physics `DebugView.cs`: the
  `PrimitiveBatch` begin/end protocol over two vertex buffers, integer
  formatting in `AppendNumber(int)`, the debug flag word, and the window
  of the performance graph.

Each file is one module:

| file | module | models |
|---|---|---|
| wrappers.dfy | Wrappers | `Option`, `Result` |
| framework.dfy | Framework | the MonoGame types `Vector2`, `Point`, `Rectangle`, plus C#'s `int`, `/` and `%` |
| longbits.dfy | LongBits | `long` bitwise OR and `<< 32` on 64-bit two's-complement patterns |
| extensions.dfy | Extensions | `Extensions.cs` |
| aabb.dfy | BoundingBox | `AABB.cs` |
| spatialcells.dfy | SpatialCells | cell ranges, keys and the cells the loops of `SpatialMap.cs` visit |
| cellfolds.dfy | CellFolds | what those loops do to `Backing`, as folds over the visited keys |
| region.dfy | Regions | the LINQ pipeline of `Region` |
| spatialmap.dfy | Spatial | the `SpatialMap<T>` class and its loops |
| genidx.dfy | Generational | `GenIdx.cs` |
| generationalindex.dfy | GenerationalLegacy | `GenerationalIndex.cs` |
| flags.dfy | FlagSet | `Flags.cs` |
| enumarray.dfy | EnumArrays | `EnumArray.cs` |
| command.dfy | EditorHistory | `HistoryStack` in `Command.cs` |
| listenablevalue.dfy | Listenable | `ListenableValue.cs` |
| loadersystem.dfy | Loading | `LoadEntry` and `LoaderSystem.Run`/`Load` |
| jsonconverters.dfy | JsonConverters | `RectangleConverter.cs`, `Vector2Converter.cs` |
| debugview.dfy | DebugViews, DebugFlags | `DebugView.cs` |

Modelling choices:

- Classes whose fields the source updates in place are Dafny classes with
  `modifies` frames: `SpatialMap`, the allocators, `GenArr`, `Flags`,
  `EnumArray`, `HistoryStack`, `ListenableValue`, `LoaderSystem`, the JSON
  reader and writer, `PrimitiveBatch`, `StringBuilder` and `DebugView`.
  Loops stay loops, with invariants.
- Each method is specified by a function of its inputs and old state, and
  that function's properties are proved as lemmas. For example, a loop
  over a rectangle's cells is specified by `CellFolds.Apply` over `SpatialCells.SpanKeys`.
- Exceptions are `Result`/`Outcome` values, or return flags, that leave the
  state as it was at the throw.
- The event callbacks are appended logs: `ICommand.Apply`/`Undo`,
  `OnChange`, `Task.Run`, `CancellationTokenSource.Cancel` and
  `DrawUserPrimitives`.
- Floating-point coordinates and times are `real`. `TimeSpan`s are tick counts.

## Model

| member | source | states |
|---|---|---|
| Framework.TruncDivRem | lette/Source/Lib/Physics/DebugView.cs:314-316 | C#'s truncating `/` and `%` satisfy `a == b * (a / b) + a % b`, with the remainder taking the sign of `a` and below `b` in magnitude |
| Extensions.Floor | lette/Source/Core/Extensions.cs:11 | `(int)Math.Floor(r)` is the integer `n` with `n <= r < n + 1` |
| Extensions.Ceiling | lette/Source/Core/Extensions.cs:16 | `(int)Math.Ceiling(r)` is the integer `n` with `r <= n < r + 1` |
| Extensions.FFloor | lette/Source/Core/Extensions.cs:9-12 | each component of the point is the integer at or below the vector's component and less than one below it |
| Extensions.FCeil | lette/Source/Core/Extensions.cs:14-17 | each component of the point is the integer at or above the vector's component and less than one above it |
| Extensions.FloorIs | lette/Source/Core/Extensions.cs:11 | the floor is the unique integer bracketing `r` from below |
| Extensions.CeilingIs | lette/Source/Core/Extensions.cs:16 | the ceiling is the unique integer bracketing `r` from above |
| Extensions.FloorCeilBracket | lette/Source/Core/Extensions.cs:9-17 | `FFloor(v) <= v <= FCeil(v)` componentwise, each less than one away; the two differ by 0 on integral components and by 1 otherwise |
| Extensions.FloorCeilOfPoint | lette/Source/Core/Extensions.cs:9-17 | an integral vector floors and ceils to its own point |
| Extensions.GetOrCreate | lette/Source/Core/Extensions.cs:19-28 | a present key returns its value and leaves the dictionary unchanged; an absent key gets the created value, which is returned, and no other key changes |
| Extensions.TakeUntil | lette/Source/Core/Extensions.cs:46-54 | the result is a prefix of the input, no element before its last one satisfies the predicate, and it is either the whole input or ends in an element that does |
| Extensions.TakeUntilFirstMatch | lette/Source/Core/Extensions.cs:46-54 | when the first element that satisfies the predicate is at `k`, the result is `source[..k + 1]` |
| Extensions.TakeUntilNoMatch | lette/Source/Core/Extensions.cs:46-54 | when no element satisfies the predicate, the result is the whole input |
| BoundingBox.Overlaps | lette/Source/Core/AABB.cs:10-12 | any point strictly inside both boxes makes them overlap; when two boxes of positive extent overlap, the centre of their common region lies strictly inside both |
| BoundingBox.OverlapsSymmetric | lette/Source/Core/AABB.cs:10-12 | `a.Overlaps(b) == b.Overlaps(a)` |
| BoundingBox.SelfOverlap | lette/Source/Core/AABB.cs:10-12 | a box overlaps itself iff it has positive extent on both axes |
| BoundingBox.TouchingDoesNotOverlap | lette/Source/Core/AABB.cs:10-12 | boxes that only share an edge, the right edge of one on the left edge of the other or the top of one on the bottom of the other, do not overlap, in either order |
| BoundingBox.OverlapExamples | lette.tests/TestAABB.cs:14-16 | the three expectations of the overlap test: containment and a slight overlap do overlap, a shared edge does not |
| BoundingBox.Round | lette/Source/Core/AABB.cs:14-15 | the rectangle's location is at or below the minimum corner by less than one, and its size covers the box's extent by less than one extra unit |
| BoundingBox.RoundBounds | lette/Source/Core/AABB.cs:14-15 | for ordered corners the size is non-negative, and zero exactly on an axis of zero extent |
| BoundingBox.Equal | lette/Source/Core/AABB.cs:26-27 | `==` holds iff the two boxes are the same value |
| BoundingBox.NotEqual | lette/Source/Core/AABB.cs:29-30 | `!=` holds iff the two boxes differ |
| BoundingBox.Equals | lette/Source/Core/AABB.cs:17-18 | `Equals(object)` holds iff the object is this box, boxed |
| BoundingBox.EqualityAgrees | lette/Source/Core/AABB.cs:17-30 | `==` holds iff both corners are equal, `!=` is its negation, and `Equals` agrees with `==` on a boxed `AABB` and is false for any other object |
| BoundingBox.Scale | lette/Source/Core/AABB.cs:32-33 | for a non-zero factor, dividing both corners of the result by the factor gives the box back |
| BoundingBox.Divide | lette/Source/Core/AABB.cs:35-36 | scaling the result by the same factor gives the box back |
| BoundingBox.Translate | lette/Source/Core/AABB.cs:38-39 | the result keeps the box's extent and its minimum corner is moved by exactly the vector |
| BoundingBox.TranslateBack | lette/Source/Core/AABB.cs:41-42 | translating the result forward by the same vector gives the box back |
| BoundingBox.ArithmeticInverses | lette/Source/Core/AABB.cs:32-42 | `(b + v) - v == b` and `(b - v) + v == b`; for `m != 0`, `(b * m) / m == b` and `(b / m) * m == b` |
| BoundingBox.TranslationPreservesOverlap | lette/Source/Core/AABB.cs:38-39 | shifting both boxes by the same vector keeps overlap as it was |
| BoundingBox.ScalingPreservesOverlap | lette/Source/Core/AABB.cs:32-33 | scaling both boxes by the same positive factor keeps overlap as it was |
| BoundingBox.FromRectangle | lette/Source/Core/AABB.cs:44-49 | the box of a rectangle has `Min = Location` and `Max = Location + Size` |
| BoundingBox.RoundFromRectangle | lette/Source/Core/AABB.cs:44-49 | rounding the box of a rectangle gives the rectangle back |
| LongBits.Or | lette/Source/Core/SpatialMap.cs:28 | `a \| b` on two `long`s is a `long` |
| LongBits.ShiftLeft32 | lette/Source/Core/SpatialMap.cs:28 | `v << 32` on a `long` is a `long`, with the bits shifted out at the top lost |
| LongBits.ShiftLeft32OfInt | lette/Source/Core/SpatialMap.cs:28 | `(long)y << 32` for an `int` `y` is `y * 2^32` |
| LongBits.OrNonNegativeLow | lette/Source/Core/SpatialMap.cs:28 | for `x >= 0`, `(long)x \| (y * 2^32) == x + y * 2^32` |
| LongBits.OrNegativeLow | lette/Source/Core/SpatialMap.cs:28 | for `x < 0`, the sign extension of `x` absorbs the row: `(long)x \| (y * 2^32) == x` |
| SpatialCells.Indices | lette/Source/Core/SpatialMap.cs:24-25 | the location brackets the scaled minimum corner from below, and the size brackets the scaled extent from above, each within one unit |
| SpatialCells.IndicesSpec | lette/Source/Core/SpatialMap.cs:24-25 | `Indices(b)` is located at the floor of `b.Min / CellSize` and has the ceiling of `b.Max / CellSize - b.Min / CellSize` as its size |
| SpatialCells.IndicesAre | lette/Source/Core/SpatialMap.cs:24-25 | any rectangle that brackets the scaled corners that way is `Indices(b)` |
| SpatialCells.IndicesUnitExample | lette.tests/TestSpatialMap.cs:27-29 | box (0,0,1,1) at cell size 10 gives the rectangle (0,0,1,1) |
| SpatialCells.IndicesFractionExample | lette.tests/TestSpatialMap.cs:35-37 | box (-0.5,0.5,3,1) at cell size 1 gives the rectangle (-1,0,4,1) |
| SpatialCells.IndicesNegativeExample | lette.tests/TestSpatialMap.cs:31-33 | box (-1,-1,2,2) at cell size 10 gives (-1,-1,1,1), not the (-1,-1,2,2) the test expects |
| SpatialCells.Key | lette/Source/Core/SpatialMap.cs:27-28 | the key of two `int`s is a `long` |
| SpatialCells.KeyIsBitwiseOr | lette/Source/Core/SpatialMap.cs:27-28 | the key equals `(long)x \| ((long)y << 32)` computed on 64-bit patterns |
| SpatialCells.KeyCollisions | lette/Source/Core/SpatialMap.cs:27-28 | two cells share a key iff they are the same cell or lie in the same negative column |
| SpatialCells.SpanCells | lette/Source/Core/SpatialMap.cs:34-35 | the loops visit exactly the cells with `X <= x < Width` and `Y <= y < Height`, so `Width` and `Height` act as end coordinates |
| SpatialCells.SpanSize | lette/Source/Core/SpatialMap.cs:34-35 | the loops visit as many cells as there are columns times rows, and none when either range is empty |
| SpatialCells.BeforeCells | lette/Source/Core/SpatialMap.cs:34-35 | partway through the loops, the visited cells are the earlier columns plus the earlier rows of the current column |
| SpatialCells.BeforeSize | lette/Source/Core/SpatialMap.cs:34-35 | partway through the loops, the number of visited cells is the columns passed times the rows, plus the rows passed |
| SpatialCells.OutsideOfOwnSpan | lette/Source/Core/SpatialMap.cs:76 | tested against a rectangle, the condition of `Update`'s loops holds for every cell of that rectangle's own range |
| SpatialCells.OutsideAsWritten | lette/Source/Core/SpatialMap.cs:76 | the condition as written holds for every cell of the rectangle's own range, so it never holds a cell of that range back |
| SpatialCells.Outside | lette/Source/Core/SpatialMap.cs:76 | the cells kept are exactly those that pass the condition as written |
| SpatialCells.Keys | lette/Source/Core/SpatialMap.cs:37 | one key per visited cell, in visiting order |
| SpatialCells.KeyOccurs | lette/Source/Core/SpatialMap.cs:37 | a key is visited iff some visited cell has it |
| SpatialCells.VisitedIsKeys | lette/Source/Core/SpatialMap.cs:34-37 | the keys the loops compute are the keys of the visited cells |
| SpatialCells.VisitedOutsideIsKeys | lette/Source/Core/SpatialMap.cs:74-77 | the keys the loops of `Update` act on are the keys of the visited cells that pass the condition |
| SpatialCells.SpanKeysCells | lette/Source/Core/SpatialMap.cs:34-37 | a key is visited iff it is the key of a cell in the rectangle's range |
| SpatialCells.OutsideKeysCells | lette/Source/Core/SpatialMap.cs:74-81 | a key is visited by a loop of `Update` iff it is the key of a cell in range that passes the condition |
| SpatialCells.NextKeyIsNew | lette/Source/Core/SpatialMap.cs:34-37 | at non-negative columns, the next cell's key has not been visited yet |
| SpatialCells.VisitedNoRepeats | lette/Source/Core/SpatialMap.cs:34-37 | at non-negative columns, no key is visited twice during the loops |
| SpatialCells.SpanKeysDistinct | lette/Source/Core/SpatialMap.cs:34-37 | at non-negative columns, the visited keys are distinct |
| SpatialCells.OccurrencesOfNoRepeats | lette/Source/Core/SpatialMap.cs:34-37 | among distinct keys, a key occurs once if at all |
| CellFolds.RemoveFirst | lette/Source/Core/SpatialMap.cs:62 | `List.Remove` of an absent element leaves the list as it is |
| CellFolds.RemoveFirstMultiset | lette/Source/Core/SpatialMap.cs:62 | `List.Remove` takes out one copy of the element if there is one, and nothing else |
| CellFolds.RemoveFirstIsFirst | lette/Source/Core/SpatialMap.cs:62 | it removes the first equal element and keeps the rest in order |
| CellFolds.ApplySnoc | lette/Source/Core/SpatialMap.cs:34-42 | one more visited key is one more step |
| CellFolds.SeedContents | lette/Source/Core/SpatialMap.cs:38-41 | enumerating with `createCells` adds an empty list under each missing visited key and changes no existing list |
| CellFolds.AppendKeys | lette/Source/Core/SpatialMap.cs:54-55 | `Insert`'s loop creates the lists it needs and deletes no key |
| CellFolds.AppendContents | lette/Source/Core/SpatialMap.cs:54-55 | each list gets the entry once per visit of its key; the lists of unvisited keys are unchanged |
| CellFolds.AppendStep | lette/Source/Core/SpatialMap.cs:55 | one `cell.Add(entry)` adds one copy under the visited key only |
| CellFolds.DropKeys | lette/Source/Core/SpatialMap.cs:61-62 | `Remove`'s loop adds no key and deletes none, so empty lists are never pruned |
| CellFolds.DropContents | lette/Source/Core/SpatialMap.cs:61-62 | each existing list loses the first copy of the entry once per visit of its key |
| CellFolds.DropStep | lette/Source/Core/SpatialMap.cs:62 | one `cell.Remove(entry)` acts on the visited key only |
| CellFolds.DropAbsent | lette/Source/Core/SpatialMap.cs:59-63 | removing an entry that no list holds changes nothing |
| CellFolds.YieldedSnoc | lette/Source/Core/SpatialMap.cs:37-41 | one more visit yields the existing list, or creates and yields a new one, or yields nothing |
| CellFolds.CellsStep | lette/Source/Core/SpatialMap.cs:37-41 | one visit of `Cells` changes the map and the yielded lists as lines 38-41 say |
| CellFolds.ListsAt | lette/Source/Core/SpatialMap.cs:39 | the lists under the keys, one per key, in order |
| CellFolds.Present | lette/Source/Core/SpatialMap.cs:38 | exactly the visited keys that have a list |
| CellFolds.PresentAll | lette/Source/Core/SpatialMap.cs:38 | when every visited key has a list, all of them are present |
| CellFolds.YieldedWithoutCreating | lette/Source/Core/SpatialMap.cs:31-43 | `Cells(b, false)` yields exactly the existing lists of the visited keys, in order, and creates nothing |
| CellFolds.YieldedCreating | lette/Source/Core/SpatialMap.cs:31-43 | `Cells(b, true)` yields, for each visited key, the list it holds once seeding is done |
| CellFolds.ReenumerateAfterSeeding | lette.tests/TestSpatialMap.cs:48-50 | after `Cells(b, true)`, enumerating again with `createCells = false` yields the same lists |
| CellFolds.EmptyYieldsNothing | lette.tests/TestSpatialMap.cs:45 | an empty map yields no cells without creating |
| CellFolds.YieldedCountCreating | lette/Source/Core/SpatialMap.cs:38-41 | creating yields one list per visited cell, even where two cells share a key |
| CellFolds.ApplyBeforeIsApply | lette/Source/Core/SpatialMap.cs:54-55 | the nested loops amount to one step per visited key, in order |
| CellFolds.YieldedBeforeIsYielded | lette/Source/Core/SpatialMap.cs:34-42 | the nested loops of `Cells` amount to the fold over the visited keys |
| CellFolds.ApplyOutsideBeforeIsApply | lette/Source/Core/SpatialMap.cs:74-82 | the nested loops of `Update` amount to the fold over the visited keys that pass the condition |
| CellFolds.OccurrencesCount | lette/Source/Core/SpatialMap.cs:34-37 | an unvisited key occurs 0 times, a visited one at least once |
| CellFolds.OccurrencesSnoc | lette/Source/Core/SpatialMap.cs:34-37 | one more visit adds one occurrence of its key |
| CellFolds.InsertOnce | lette/Source/Core/SpatialMap.cs:51-57 | at non-negative columns, `Insert` creates exactly the missing visited keys, appends the entry once to each visited list, and changes no other list |
| CellFolds.NegativeColumnVisits | lette/Source/Core/SpatialMap.cs:27-35 | in a negative first column, every row visits the key `x` |
| CellFolds.InsertNegativeColumn | lette/Source/Core/SpatialMap.cs:51-57 | so `Insert` over a negative first column appends the entry to that column's single list once per row |
| CellFolds.RemoveOnce | lette/Source/Core/SpatialMap.cs:59-63 | at non-negative columns, `Remove` adds and deletes no key, and removes at most the first copy of the entry from each visited list |
| CellFolds.RemovedIsGone | lette/Source/Core/SpatialMap.cs:59-63 | a visited list that held at most one copy of the entry holds none afterwards |
| CellFolds.UpdateFrame | lette/Source/Core/SpatialMap.cs:65-85 | `Update` changes only keys that its two loops visit |
| CellFolds.UpdateStoresOldEntry | lette/Source/Core/SpatialMap.cs:82 | every list the second loop visits ends with the entry passed in, not the new entry |
| CellFolds.OutsideOwnVisited | lette/Source/Core/SpatialMap.cs:76 | against its own rectangle, the condition keeps every cell |
| CellFolds.UpdateInPlace | lette/Source/Core/SpatialMap.cs:74-82 | when the old and new ranges coincide (at non-negative columns), each list loses the first copy of the entry and gets it appended again |
| Regions.Flatten | lette/Source/Core/SpatialMap.cs:47 | `SelectMany` holds exactly the entries of the lists |
| Regions.Matching | lette/Source/Core/SpatialMap.cs:47 | the `Where` keeps every entry when `loose` is true, and otherwise exactly those whose bounds overlap the query |
| Regions.Values | lette/Source/Core/SpatialMap.cs:48 | `Select(entry => entry.Value)` maps the entries one to one |
| Regions.Distinct | lette/Source/Core/SpatialMap.cs:49 | `Distinct` has no repeats and the same elements as its input |
| Regions.RegionOf | lette/Source/Core/SpatialMap.cs:45-49 | the pipeline's result has no repeated value, and each value it holds is the value of an entry in one of the yielded lists |
| Regions.ListsAtEntries | lette/Source/Core/SpatialMap.cs:46-47 | an entry is in the flattened lists iff some key's list holds it |
| Regions.YieldedEntries | lette/Source/Core/SpatialMap.cs:46-47 | an entry comes out of `Cells(b)` iff an existing list of a visited key holds it |
| Regions.RegionContents | lette/Source/Core/SpatialMap.cs:45-49 | a value is in `Region(b, loose)` iff it is the value of an entry in an existing list of a visited key that passes the overlap filter, or of any such entry when `loose` is true |
| Regions.InsertedIsFound | lette/Source/Core/SpatialMap.cs:45-57 | after `Insert`, a query that visits one of the inserted keys and whose filter admits the entry finds its value |
| Spatial.SpatialMap.constructor | lette/Source/Core/SpatialMap.cs:16-22 | a new map has the given cell size and no cells |
| Spatial.SpatialMap.Cells | lette/Source/Core/SpatialMap.cs:31-43 | the loops leave `Backing` seeded over the visited keys and yield the lists of the fold, as the lemmas above characterise |
| Spatial.SpatialMap.VisitSpan | lette/Source/Core/SpatialMap.cs:54-55 | the nested loops apply one step per visited key |
| Spatial.SpatialMap.VisitOutside | lette/Source/Core/SpatialMap.cs:74-82 | one loop of `Update` applies one step per visited key that passes the condition |
| Spatial.SpatialMap.Region | lette/Source/Core/SpatialMap.cs:45-49 | the result has no repeated value; its contents are given by `Regions.RegionContents` |
| Spatial.SpatialMap.Insert | lette/Source/Core/SpatialMap.cs:51-57 | returns `{bounds, pos, value}` and appends that entry under every visited key, creating missing lists |
| Spatial.SpatialMap.Remove | lette/Source/Core/SpatialMap.cs:59-63 | removes the entry from the existing lists of the visited keys and creates none |
| Spatial.SpatialMap.Update | lette/Source/Core/SpatialMap.cs:65-85 | an unchanged position and bounds return the entry and change nothing; otherwise it returns the entry's value at the new position and bounds, and `Backing` is the result of the two loops |
| Generational.IsNull | lette/Source/Core/GenIdx.cs:12 | the null test, generation 0; it has no contract of its own, and `GenIdxAllocator.Alive` and `NullNeverAlive` state that a null handle is never alive |
| Generational.InstallEffect | lette/Source/Core/GenIdx.cs:38-42 | writing a live entry of generation `g` at `i` makes exactly `(i, g)` alive there and leaves every other slot's handles as they were |
| Generational.GenIdxAllocator.constructor | lette/Source/Core/GenIdx.cs:23-31 | `size` dead entries, an empty free stack, generations starting at 1 and `Count` 0 |
| Generational.GenIdxAllocator.Alive | lette/Source/Core/GenIdx.cs:56-60 | in a valid allocator, a live handle is not null and its generation has been issued (below `NextGeneration`) |
| Generational.GenIdxAllocator.Alloc | lette/Source/Core/GenIdx.cs:33-44 | takes the top of `Free`, or else `Count`, which is always 0; the generation is `NextGeneration`, which grows by one and exceeds every earlier generation; the slot becomes `{true, gen}`; the handle is alive and non-null, and no other generation is alive at that index |
| Generational.GenIdxAllocator.Dealloc | lette/Source/Core/GenIdx.cs:46-54 | returns whether the handle was alive; on success it pushes the index onto `Free`; it never changes `Entries`, so the handle stays alive |
| Generational.DeallocTwice | lette/Source/Core/GenIdx.cs:46-54 | releasing a live handle twice succeeds both times and pushes its index twice |
| Generational.NullNeverAlive | lette/Source/Core/GenIdx.cs:12 | a handle of generation 0 is never alive |
| Generational.GenArr.constructor | lette/Source/Core/GenIdx.cs:74-78 | one empty slot per allocator entry |
| Generational.GenArr.Get | lette/Source/Core/GenIdx.cs:82 | the getter returns a value only for a live handle |
| Generational.GenArr.Set | lette/Source/Core/GenIdx.cs:83-91 | for a live handle, only its slot becomes `{value, generation}` and the getter then returns `value`; for any other handle nothing is written |
| Generational.GenArr.Entries | lette/Source/Core/GenIdx.cs:94-106 | the loop yields the values of the live non-null slots, in index order |
| Generational.LiveSlots | lette/Source/Core/GenIdx.cs:98-103 | the live slots, ascending, exactly those whose stored generation is alive and whose value is non-null |
| Generational.LiveValuesAreLiveSlots | lette/Source/Core/GenIdx.cs:94-106 | the values `Entries` yields are, one for one, the values of the live slots in index order |
| GenerationalLegacy.GenerationalIndexAllocator.constructor | lette/Source/Core/GenerationalIndex.cs:20-28 | `size` dead entries, an empty free stack, generations starting at 0 and `Count` 0 |
| GenerationalLegacy.GenerationalIndexAllocator.Alive | lette/Source/Core/GenerationalIndex.cs:53-57 | a live handle's slot holds no other live generation, and in a valid allocator its generation has been issued (between 0 and `NextGeneration`) |
| GenerationalLegacy.GenerationalIndexAllocator.Alloc | lette/Source/Core/GenerationalIndex.cs:30-41 | as in `GenIdxAllocator`, except that the first handle has generation 0 |
| GenerationalLegacy.GenerationalIndexAllocator.Dealloc | lette/Source/Core/GenerationalIndex.cs:43-51 | returns whether the handle was alive and pushes its index on success; `Entries` is unchanged |
| FlagSet.BitIndex | lette/Source/Core/Flags.cs:31 | `1UL << (index % 64)` addresses bit `index` mod 64, since a negative remainder wraps in the shift count |
| FlagSet.BitIndexAliases | lette/Source/Core/Flags.cs:31 | indices `i` and `i + 64` address the same bit |
| FlagSet.IndicesAlias | lette/Source/Core/Flags.cs:31 | they give the same shift count |
| FlagSet.SetBit | lette/Source/Core/Flags.cs:34 | `\|=` sets the addressed bit and keeps every other bit |
| FlagSet.SetSameBit | lette/Source/Core/Flags.cs:34 | after `\|=` with a bit's mask, that bit is set |
| FlagSet.SetOtherBit | lette/Source/Core/Flags.cs:34 | `\|=` with one bit's mask leaves every other bit as it was |
| FlagSet.ClearSameBit | lette/Source/Core/Flags.cs:36 | after `&= ~` with a bit's mask, that bit is clear |
| FlagSet.ClearOtherBit | lette/Source/Core/Flags.cs:36 | `&= ~` with one bit's mask leaves every other bit as it was |
| FlagSet.ClearBit | lette/Source/Core/Flags.cs:36 | `&= ~` clears the addressed bit and keeps every other bit |
| FlagSet.AssignBits | lette/Source/Core/Flags.cs:32-38 | after the setter, the addressed bit reads as the value written and every other bit as before |
| FlagSet.IncludesBit | lette/Source/Core/Flags.cs:47-48 | a flag of `toMatch` is set in every word that matches it |
| FlagSet.ExcludesBit | lette/Source/Core/Flags.cs:51-52 | a flag of `inverseMatch` is clear in every word that does not match it |
| FlagSet.SubsetIncludes | lette/Source/Core/Flags.cs:47-48 | a word matches every mask whose flags are all among its own |
| FlagSet.IncludesSubset | lette/Source/Core/Flags.cs:47-48 | a word that matches a mask has every flag of the mask |
| FlagSet.IncludesIsSubset | lette/Source/Core/Flags.cs:47-48 | both directions: matching holds iff the mask's flags are a subset of the word's |
| FlagSet.DisjointExcludes | lette/Source/Core/Flags.cs:50-52 | a word that shares no flag with a mask does not match it |
| FlagSet.ExcludesDisjoint | lette/Source/Core/Flags.cs:50-52 | a word that does not match a mask shares no flag with it |
| FlagSet.ExcludesIsDisjoint | lette/Source/Core/Flags.cs:50-52 | both directions: not matching holds iff the word and the mask are disjoint |
| FlagSet.MatchLaws | lette/Source/Core/Flags.cs:47-52 | `Matches` is reflexive, everything matches the empty set, and only the empty set is both matched and not matched |
| FlagSet.Ordinal | lette/Source/Core/Flags.cs:5-16 | `AnimFlag`'s ordinals lie in 0..8 |
| FlagSet.Flags.constructor | lette/Source/Core/Flags.cs:27 | a new flag set is empty |
| FlagSet.Flags.Get | lette/Source/Core/Flags.cs:31 | the int getter reads bit `index mod 64` (Euclidean), negative indices included |
| FlagSet.Flags.GetFlag | lette/Source/Core/Flags.cs:41-43 | the enum getter reads the bit at the member's ordinal |
| FlagSet.Flags.Matches | lette/Source/Core/Flags.cs:47-48 | true iff the flags of `toMatch` are a subset of these |
| FlagSet.Flags.DoesNotMatch | lette/Source/Core/Flags.cs:50-52 | true iff these flags and those of `inverseMatch` are disjoint |
| FlagSet.Flags.Set | lette/Source/Core/Flags.cs:29-39 | the int setter writes the addressed bit and the getter then reads the value written |
| FlagSet.Flags.SetFlag | lette/Source/Core/Flags.cs:41-45 | the enum setter is the int setter at the member's ordinal |
| FlagSet.AnimFlagsExample | lette/Program.cs:11-19 | after setting `DirL` and `DirR`, both read true, `Moving` reads false, and the set matches `{DirL, DirR}` |
| EnumArrays.EnumArray.New | lette/Source/Core/EnumArray.cs:9-12 | one default slot per enum member |
| EnumArrays.EnumArray.Keys | lette/Source/Core/EnumArray.cs:14-15 | the ordinals `0 .. n - 1` in order |
| EnumArrays.EnumArray.Entries | lette/Source/Core/EnumArray.cs:17-18 | each ordinal paired with its slot's value, in order |
| EnumArrays.EnumArray.Get | lette/Source/Core/EnumArray.cs:20-22 | the getter returns the value `Entries` pairs with the key |
| EnumArrays.EnumArray.Set | lette/Source/Core/EnumArray.cs:20-24 | writes slot `k`, which then reads the value written; every other slot is unchanged |
| EditorHistory.RedoEvents | lette/Source/Editor/Command.cs:47-56 | redoing `hi - lo` commands gives two events each |
| EditorHistory.UndoEvents | lette/Source/Editor/Command.cs:34-43 | undoing `top - bottom` commands gives two events each |
| EditorHistory.RedoEventsSnoc | lette/Source/Editor/Command.cs:60-61 | one more redo adds its apply and its notification at the end |
| EditorHistory.UndoEventsSnoc | lette/Source/Editor/Command.cs:62-63 | one more undo adds its undo and its notification at the end |
| EditorHistory.HistoryStack.constructor | lette/Source/Editor/Command.cs:12-18 | an empty history with the cursor at 0 |
| EditorHistory.HistoryStack.Push | lette/Source/Editor/Command.cs:23-32 | `null` changes nothing; otherwise the stack becomes `old Stack[..Index] + [c]`, the cursor its length, and `c` is applied once before the notification |
| EditorHistory.HistoryStack.Pop | lette/Source/Editor/Command.cs:34-43 | at 0 it returns `null` and changes nothing; otherwise the cursor steps back, and the command below it is undone once and returned; the stack is unchanged |
| EditorHistory.HistoryStack.Undo | lette/Source/Editor/Command.cs:45 | the same as `Pop` |
| EditorHistory.HistoryStack.Redo | lette/Source/Editor/Command.cs:47-56 | at the top it returns `null` and changes nothing; otherwise it applies and returns the command at the cursor and moves past it |
| EditorHistory.HistoryStack.GoToIndex | lette/Source/Editor/Command.cs:58-64 | for a target in range, the cursor ends there with the stack unchanged, after the redos or the undos of the commands in between, one at a time |
| EditorHistory.HistoryStack.Clear | lette/Source/Editor/Command.cs:66-71 | empties the stack, puts the cursor at 0 and notifies |
| EditorHistory.HistoryStack.Notify | lette/Source/Editor/Command.cs:73-75 | raises `OnChange` with the stack and the cursor |
| EditorHistory.UndoThenRedo | lette/Source/Editor/Command.cs:34-56 | an undo followed by a redo returns the same command twice and puts the cursor back |
| Listenable.ListenableValue.constructor | lette/Source/Editor/ListenableValue.cs:7 | a new cell holds `default(T)` and has fired nothing |
| Listenable.ListenableValue.Value | lette/Source/Editor/ListenableValue.cs:8-10 | the getter, which the implicit conversion at lines 29-32 returns, gives the value last announced once anything has been announced |
| Listenable.ListenableValue.SetValue | lette/Source/Editor/ListenableValue.cs:8-19 | the value is then the one assigned; `OnChange` fires once with it iff it differs from the old value |
| Listenable.ListenableValue.Notify | lette/Source/Editor/ListenableValue.cs:21-24 | fires `OnChange` with the current value and changes nothing else |
| Listenable.SetTwice | lette/Source/Editor/ListenableValue.cs:8-19 | assigning the same value twice fires at most once |
| Loading.LoadEntry.constructor | lette/Source/Systems/LoaderSystem.cs:25-29 | a new entry has the given source and handle and no token source |
| Loading.Stop | lette/Source/Systems/LoaderSystem.cs:100-104 | the first handle that has no handle and a `null` source, where `TryGetValue` throws, or the end of the filter |
| Loading.NewSourcesAre | lette/Source/Systems/LoaderSystem.cs:102-108 | the sources that get new entries are distinct; a source is one of them iff it is not a key of `entries` and is the source of some processed handle without a handle |
| Loading.SkipStep | lette/Source/Systems/LoaderSystem.cs:100-101 | a handle that already has a handle is left as it is |
| Loading.FoundStep | lette/Source/Systems/LoaderSystem.cs:102-103 | a handle whose source has an entry takes that entry's handle, with no new source |
| Loading.NewStep | lette/Source/Systems/LoaderSystem.cs:104-110 | a handle with a new source takes the new entry's handle; the new entry and its request extend the record by that source |
| Loading.LoaderSystem.Load | lette/Source/Systems/LoaderSystem.cs:47-54 | cancels the entry's previous token source if any, installs a new one, and requests a load with its token |
| Loading.LoaderSystem.Run | lette/Source/Systems/LoaderSystem.cs:95-112 | the allocator stays valid with the same slot array, so `Run` can be called again on the next frame. With no filter or no arena nothing changes, the handles and the allocator included. Otherwise, up to the first throwing handle: handles that already have a handle are untouched; each other handle takes the handle of its source's entry; no existing entry is replaced; each new source gets exactly one allocation, one entry and one load, in the order met; and processed handles with equal sources end with the same handle |
| Loading.LoaderSystem.NewEntry | lette/Source/Systems/LoaderSystem.cs:106 | a new entry for the source, with a freshly allocated handle whose generation is the one issued next |
| Loading.LoaderSystem.Create | lette/Source/Systems/LoaderSystem.cs:104-110 | the new-source branch extends the resolution and the record by one handle |
| Loading.LoaderSystem.Visit | lette/Source/Systems/LoaderSystem.cs:99-110 | one loop body: it throws iff the handle has no handle and a `null` source, changing nothing; otherwise the resolution and the record extend by one handle |
| JsonConverters.Int32At | lette/Source/Core/JsonSerialization/RectangleConverter.cs:15-17 | succeeds iff the token is a number that fits an `int`, returning it; otherwise it names the position and whether the token was not a number or not an `int` |
| JsonConverters.NumberAt | lette/Source/Core/JsonSerialization/Vector2Converter.cs:15-17 | succeeds iff the token is a number, returning its value |
| JsonConverters.ParseRectangle | lette/Source/Core/JsonSerialization/RectangleConverter.cs:10-30 | succeeds iff the tokens are `StartArray`, four `int` numbers and `EndArray`, returning `Rectangle(x, y, w, h)` in token order |
| JsonConverters.ParseVector2 | lette/Source/Core/JsonSerialization/Vector2Converter.cs:10-24 | succeeds iff the tokens are `StartArray`, two numbers and `EndArray`, returning `Vector2(x, y)`; every failure is a token of the wrong type |
| JsonConverters.RectangleRoundTrip | lette/Source/Core/JsonSerialization/RectangleConverter.cs:10-39 | reading back the tokens `Write` emitted, wherever they sit in a stream, gives the rectangle |
| JsonConverters.Vector2RoundTrip | lette/Source/Core/JsonSerialization/Vector2Converter.cs:10-32 | reading back the tokens `Write` emitted gives the vector |
| JsonConverters.RectangleTokensOfParse | lette/Source/Core/JsonSerialization/RectangleConverter.cs:10-39 | writing a rectangle that was read gives back the tokens that were read |
| JsonConverters.Reader.constructor | lette/Source/Core/JsonSerialization/RectangleConverter.cs:10 | a reader stands on a token of its stream |
| JsonConverters.Reader.Current | lette/Source/Core/JsonSerialization/RectangleConverter.cs:12 | the current token is a token of the stream |
| JsonConverters.Reader.Read | lette/Source/Core/JsonSerialization/RectangleConverter.cs:15 | `Read()` is true iff there is a next token, and moves onto it |
| JsonConverters.Writer.constructor | lette/Source/Core/JsonSerialization/RectangleConverter.cs:31 | a new writer has written nothing |
| JsonConverters.Writer.WriteStartArray | lette/Source/Core/JsonSerialization/RectangleConverter.cs:33 | appends `StartArray` |
| JsonConverters.Writer.WriteEndArray | lette/Source/Core/JsonSerialization/RectangleConverter.cs:38 | appends `EndArray` |
| JsonConverters.Writer.WriteNumberValue | lette/Source/Core/JsonSerialization/RectangleConverter.cs:34 | appends one number |
| JsonConverters.ReadInt32 | lette/Source/Core/JsonSerialization/RectangleConverter.cs:15-17 | `Read()` then `GetInt32` give the result of `Int32At` at the next position |
| JsonConverters.ReadNumber | lette/Source/Core/JsonSerialization/Vector2Converter.cs:15-17 | `Read()` then `GetDouble` give the result of `NumberAt` at the next position |
| JsonConverters.ReadEndArray | lette/Source/Core/JsonSerialization/RectangleConverter.cs:27-28 | true iff the next token exists and is `EndArray` |
| JsonConverters.ReadRectangle | lette/Source/Core/JsonSerialization/RectangleConverter.cs:10-30 | returns `ParseRectangle` of the tokens from the reader's position; on success the reader is left on the `EndArray` |
| JsonConverters.WriteRectangle | lette/Source/Core/JsonSerialization/RectangleConverter.cs:31-39 | appends exactly `StartArray, X, Y, Width, Height, EndArray` |
| JsonConverters.ReadVector2 | lette/Source/Core/JsonSerialization/Vector2Converter.cs:10-24 | returns `ParseVector2` of the tokens from the reader's position; on success the reader is left on the `EndArray` |
| JsonConverters.WriteVector2 | lette/Source/Core/JsonSerialization/Vector2Converter.cs:26-32 | appends exactly `StartArray, X, Y, EndArray` |
| JsonConverters.RectangleWriteThenRead | lette/Source/Core/JsonSerialization/RectangleConverter.cs:10-39 | a rectangle written and then read back is the same rectangle |
| JsonConverters.Vector2WriteThenRead | lette/Source/Core/JsonSerialization/Vector2Converter.cs:10-32 | a vector written and then read back is the same vector |
| DebugViews.Flushed | lette/Source/Lib/Physics/DebugView.cs:257-265 | a flush submits one draw iff at least one whole primitive is buffered, of at least one primitive and no more than the buffered vertices hold |
| DebugViews.TriangleBufferLength | lette/Source/Lib/Physics/DebugView.cs:85 | the triangle buffer holds whole triangles: a multiple of 3, at most `bufferSize` and above `bufferSize - 3` |
| DebugViews.LineBufferLength | lette/Source/Lib/Physics/DebugView.cs:86 | the line buffer holds whole lines: a multiple of 2, at most `bufferSize` and above `bufferSize - 2` |
| DebugViews.PrimitiveBatch.constructor | lette/Source/Lib/Physics/DebugView.cs:78-91 | two fresh, distinct, empty buffers of those lengths; not begun; nothing drawn |
| DebugViews.PrimitiveBatch.Begin | lette/Source/Lib/Physics/DebugView.cs:126-154 | throws if already begun, and otherwise begins |
| DebugViews.PrimitiveBatch.IsReady | lette/Source/Lib/Physics/DebugView.cs:156-159 | true exactly while a batch is begun |
| DebugViews.PrimitiveBatch.FlushTriangles | lette/Source/Lib/Physics/DebugView.cs:251-269 | throws unless begun; otherwise submits `count / 3` triangles and resets the count iff `count >= 3` |
| DebugViews.PrimitiveBatch.FlushLines | lette/Source/Lib/Physics/DebugView.cs:271-289 | throws unless begun; otherwise submits `count / 2` lines and resets the count iff `count >= 2` |
| DebugViews.PrimitiveBatch.AddTriangleVertex | lette/Source/Lib/Physics/DebugView.cs:173-179 | a full buffer is flushed first; the vertex is written at the slot the count names, that slot is returned and the count is one above it; an empty buffer throws |
| DebugViews.PrimitiveBatch.AddLineVertex | lette/Source/Lib/Physics/DebugView.cs:181-187 | the same for the line buffer |
| DebugViews.PrimitiveBatch.AddVertex3 | lette/Source/Lib/Physics/DebugView.cs:166-192 | throws before `Begin` or for any other primitive type, changing nothing; otherwise it flushes its own buffer first when that is full, writes the vertex to its own buffer only, returns the slot within bounds, and leaves the count one above it; the other buffer and its count are unchanged |
| DebugViews.PrimitiveBatch.AddVertex | lette/Source/Lib/Physics/DebugView.cs:200-230 | the same contract as `AddVertex3`, for the 2-D position at the default depth of its kind of list: throws before `Begin` or for any other primitive type, changing nothing; otherwise a full buffer is flushed first, the vertex goes to a slot within its own buffer, which is returned with the count one above it, and the other buffer is unchanged |
| DebugViews.PrimitiveBatch.End | lette/Source/Lib/Physics/DebugView.cs:237-249 | throws unless begun; otherwise it flushes triangles, then lines, and ends; fewer than 3 triangle vertices and 2 line vertices are left |
| DebugViews.StringBuilder.constructor | lette/Source/Lib/Physics/DebugView.cs:312 | a new builder holds the empty text |
| DebugViews.StringBuilder.Append | lette/Source/Lib/Physics/DebugView.cs:320 | appends one character |
| DebugViews.Digits | lette/Source/Lib/Physics/DebugView.cs:312-321 | a decimal numeral: all digits, at least one, no leading zero |
| DebugViews.DigitsValue | lette/Source/Lib/Physics/DebugView.cs:312-321 | the numeral reads back as the number |
| DebugViews.IntText | lette/Source/Lib/Physics/DebugView.cs:312-321 | `AppendInt` appends at least one character; for a non-negative value only digits, and for a negative one a single character, which is a digit only when the value is a multiple of 10 |
| DebugViews.IntTextIsDigits | lette/Source/Lib/Physics/DebugView.cs:312-321 | for a non-negative `int`, `AppendInt` appends its numeral |
| DebugViews.Negate32 | lette/Source/Lib/Physics/DebugView.cs:305 | unchecked `-value` is `-value`, except that `int.MinValue` negates to itself |
| DebugViews.NumberText | lette/Source/Lib/Physics/DebugView.cs:300-310 | `AppendNumber` appends a text that starts with `-` iff the value is negative, followed, for every value above `int.MinValue`, by digits only |
| DebugViews.NumberTextIsDecimal | lette/Source/Lib/Physics/DebugView.cs:300-310 | for every `int` above `int.MinValue`, `AppendNumber` appends `-` for a negative value, then the numeral of its magnitude |
| DebugViews.NumberTextOfMinValue | lette/Source/Lib/Physics/DebugView.cs:300-321 | `AppendNumber(int.MinValue)` appends `"-("` |
| DebugViews.DecimalText | lette/Source/Lib/Physics/DebugView.cs:300-321 | the corrected text starts with `-` iff the value is negative, and holds at least one digit and only digits after the sign |
| DebugViews.DecimalTextValue | lette/Source/Lib/Physics/DebugView.cs:300-321 | the corrected text reads back as the value, sign included, for every integer |
| DebugViews.AppendInt | lette/Source/Lib/Physics/DebugView.cs:312-321 | the recursion appends the as-written digit text of the value |
| DebugViews.AppendNumber | lette/Source/Lib/Physics/DebugView.cs:300-310 | returns the same builder with the as-written text of the value appended |
| DebugViews.AppendDigits | lette/Source/Lib/Physics/DebugView.cs:312-321 | appends the numeral of a natural number, leading digits first |
| DebugViews.AppendNumberFixed | lette/Source/Lib/Physics/DebugView.cs:300-310 | returns the same builder with the corrected decimal text appended |
| DebugViews.Window | lette/Source/Lib/Physics/DebugView.cs:799-807 | the graph gains the new value as its last element, is a suffix of the old values plus it, loses at most the oldest value, and stays within `ValuesToGraph + 1` if it was within that |
| DebugViews.WindowFull | lette/Source/Lib/Physics/DebugView.cs:799-807 | a full graph drops its oldest value and appends the new one |
| DebugViews.DebugView.constructor | lette/Source/Lib/Physics/DebugView.cs:546-555 | the default flags are shapes, controllers and joints; the graph keeps 500 values and is empty |
| DebugViews.DebugView.AppendFlags | lette/Source/Lib/Physics/DebugView.cs:428-431 | ORs in the given flags: a bit is set afterwards iff it was set before or is given |
| DebugViews.DebugView.RemoveFlags | lette/Source/Lib/Physics/DebugView.cs:437-440 | clears the given flags: a bit is set afterwards iff it was set before and is not given |
| DebugViews.DebugView.UpdatePerformanceGraph | lette/Source/Lib/Physics/DebugView.cs:799-807 | the graph becomes `Window` of the old values, the new value and `ValuesToGraph`, and the graph is marked updated |
| DebugFlags.UnionBits | lette/Source/Lib/Physics/DebugView.cs:430 | bit `k` of `a \| b` is set iff it is set in `a` or in `b` |
| DebugFlags.UnionKeepsBit | lette/Source/Lib/Physics/DebugView.cs:430 | a bit set before stays set |
| DebugFlags.UnionAddsBit | lette/Source/Lib/Physics/DebugView.cs:430 | a bit that was clear is set afterwards iff it is given |
| DebugFlags.RemoveBits | lette/Source/Lib/Physics/DebugView.cs:439 | bit `k` of `a & ~b` is set iff it is set in `a` and not in `b` |
| DebugFlags.RemoveClearsBit | lette/Source/Lib/Physics/DebugView.cs:439 | a bit given is clear afterwards |
| DebugFlags.RemoveKeepsBit | lette/Source/Lib/Physics/DebugView.cs:439 | a bit not given keeps its value |

## Left out

- Rendering is left out: every `Draw*`, `RenderDebugData`, `LoadContent`,
  `PreSolve`, `DrawPerformanceGraph`, the float `AppendNumber`, and the
  renderer systems. The GPU's `DrawUserPrimitives` is only a log of
  primitive counts. The blend, sampler, depth and rasterizer states and
  the effect set up in `Begin` are not modelled.
- The GTK editor widgets and `UpdateComponentCommand` are left out; the
  latter is driven by reflection.
- The physics engine, animation timing, input, the ECS glue and the game
  loop are left out. So are `Angle`, `SetAngle`, `V2` and the infinite `Stream`
  in `Extensions.cs`.
- The asynchronous loading is left out: the body of `Task.Run`, file and
  texture loading, the `FileSystemWatcher` and `OnChanged`, `Init` and
  `Destroy`. `Load` is an appended request, and a cancelled token source is
  a number appended to `Cancelled`.
- The JSON converters other than those for `Rectangle` and `Vector2` are left out.
- Float fidelity is not modelled. Coordinates are exact reals: there is no
  IEEE rounding, NaN or infinity, and the `(float)` narrowing of
  `GetDouble` is the identity.
- JSON number syntax is not modelled: a number token carries its value.
  `GetInt32` accepts any integral value that fits an `int`, whatever its
  text.
- Loading.LoaderSystem.Load requires a resource arena, where the source
  throws `NullReferenceException`. Both callers in the shown code, `Run`
  after its guard and `OnChanged` after its own check, already ensure it.
- Loading.LoaderSystem.Run: the `entries != null` check is not modelled,
  because the dictionary is initialised by its field initialiser and is
  never `null` in the model.
- Loading.LoaderSystem.Run requires an allocator slot
  (`Entries.Length > 0`), so that `Alloc` never writes outside the array.
  The source would throw there.
- Extensions.GetOrCreate: `new V()` is a parameter of the method. The
  dictionary is passed and returned as a value.
- Generational.GenIdxAllocator.Alloc requires an in-range index (a free
  index, or `Count < Entries.Length`), where the source would throw
  `IndexOutOfRangeException`. Generations are unbounded, with no `int` overflow.
- GenerationalLegacy.GenerationalIndexAllocator.Alloc has the same
  requirement and the same unbounded generations.
- Generational.GenIdxAllocator.Dealloc requires an index inside the array;
  the source throws outside it.
- GenerationalLegacy.GenerationalIndexAllocator.Dealloc has the same requirement.
- Generational.GenArr.Set requires an index inside the array; the source
  throws outside it.
- Generational.GenArr.Get requires an index inside the array (the source
  throws outside it). It states only that a value comes back for live
  handles alone. Which value comes back is given by `GenArr.Set`'s
  round trip.
- Spatial.SpatialMap.Update requires that every key its first loop
  removes from exists, because the indexer at line 77 throws on a missing key.
- Spatial.SpatialMap.Cells and the other spatial operations require a
  non-zero cell size and bounds whose cell range fits `int`. Division by
  zero and float-to-int overflow are outside the model.
- EditorHistory.HistoryStack.GoToIndex requires a target within
  `0 .. Stack.Count`. Outside that range the source never terminates,
  because `Undo` and `Redo` stop moving at the ends.
- FlagSet.IncludesBit states one direction of the bit-level reading of
  `Matches`. Both directions are stated on whole words by
  `FlagSet.IncludesIsSubset`.
- FlagSet.ExcludesBit states one direction of the bit-level reading of
  `DoesNotMatch`. Both directions are stated on whole words by
  `FlagSet.ExcludesIsDisjoint`.
- FlagSet.Flags is a class specialised to `AnimFlag`, where the source has
  the generic value type `struct Flags<T>`. The setters update it in place;
  the copy made when a C# `Flags<T>` is assigned or passed by value is not
  modelled, so two variables never share one word in the source but may
  share one object here.
- FlagSet.AnimFlagsExample builds the expected set with two setter
  calls, because `Flags<T>.New`, used at lette/Program.cs:18, is not part
  of the shown `Flags.cs`. The only enum it uses is `AnimFlag`.
- JsonConverters.ReadRectangle does not state where the reader stands
  after a failure. The source throws there, and the caller does not use
  the reader again.
- JsonConverters.ReadVector2 does not state it either, for the same reason.
- DebugViews.PrimitiveBatch.constructor requires `bufferSize >= 0`,
  where the source throws on a negative array size. The `null` graphics
  device check is not modelled.
- DebugViews.Window does not promise that the graph is non-empty for a
  negative `ValuesToGraph`. In that case `RemoveAt(0)` empties a
  one-element list.
- EnumArrays.EnumArray models keys by their ordinals `0 .. n - 1`, so the
  `(K)(object)k` casts are the identity.
- The tests that assume an `Add`/`Update(ref)` API and a four-argument
  `AABB` constructor are not part of this model. The expectations at
  lette.tests/TestSpatialMap.cs:31-33 and :54 do not hold for the shown
  `Round`/`Cells`. `SpatialCells.IndicesNegativeExample` states what does
  hold instead.

## Findings

| source | as written | input that shows it | evidently intended | confidence | as-written member | corrected member |
|---|---|---|---|---|---|---|
| lette/Source/Lib/Physics/DebugView.cs:300-321 | `value = -value` overflows for `int.MinValue`, which stays negative, and `AppendInt` then appends `'0' + (-8)`, which is `'('` | `AppendNumber(sb, int.MinValue)` appends `"-("` | `"-2147483648"` | not executed | DebugViews.NumberTextOfMinValue | DebugViews.DecimalTextValue |
