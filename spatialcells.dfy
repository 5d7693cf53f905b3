/** The cell arithmetic of `SpatialMap<T>` (lette/Source/Core/SpatialMap.cs):
    which cells a box covers, the packed `long` key of a cell, and what the
    map's per-cell loops do to the backing dictionary.

    The backing `Dictionary<long, List<SpatialEntry<T>>>` is a Dafny map from
    the key (a `long` as an integer) to the list held under it. Every loop of
    the class visits the cells of a rectangle column by column, and each visit
    of cell `c` reads or changes only the list under `Key(c)`, so a loop is
    the fold `Apply` of one `Step` over the visited cells. */
module SpatialCells {
  import opened Framework
  import opened Extensions
  import opened BoundingBox
  import LongBits

  /** `SpatialEntry<T>`: a value with the position and bounds it was stored
      under. It is a struct, so `==` (used by `List.Remove`) is structural. */
  datatype SpatialEntry<T> = SpatialEntry(Bounds: AABB, Pos: Vector2, Value: T)

  /** The cell lists of a map, keyed by the packed cell key. */
  type Backing<T> = map<int, seq<SpatialEntry<T>>>

  /** A cell, as its column `x` and row `y`. */
  type Cell = (int, int)

  predicate IsCell(c: Cell) { IsInt32(c.0) && IsInt32(c.1) }

  /** `Indices`: the bounds in cell units, rounded by `AABB.Round`. */
  function Indices(cellSize: real, bounds: AABB): (r: Rectangle)
    requires cellSize != 0.0
    ensures r.X as real <= bounds.Min.X / cellSize < r.X as real + 1.0
    ensures r.Y as real <= bounds.Min.Y / cellSize < r.Y as real + 1.0
    ensures r.Width as real - 1.0 < bounds.Max.X / cellSize - bounds.Min.X / cellSize <= r.Width as real
    ensures r.Height as real - 1.0 < bounds.Max.Y / cellSize - bounds.Min.Y / cellSize <= r.Height as real
  {
    Round(Divide(bounds, cellSize))
  }

  /** The map can address the cells of `bounds`: the cell size is not zero and
      the rounded rectangle fits the `int` fields of a `Rectangle`. */
  predicate Addressable(cellSize: real, bounds: AABB)
  {
    cellSize != 0.0 && IsInt32Rectangle(Indices(cellSize, bounds))
  }

  /** The location of `Indices` is the floor of the scaled minimum corner
      and its size the ceiling of the scaled extent. */
  lemma IndicesSpec(cellSize: real, bounds: AABB)
    requires cellSize != 0.0
    ensures Indices(cellSize, bounds).X == Floor(bounds.Min.X / cellSize)
    ensures Indices(cellSize, bounds).Y == Floor(bounds.Min.Y / cellSize)
    ensures Indices(cellSize, bounds).Width == Ceiling(bounds.Max.X / cellSize - bounds.Min.X / cellSize)
    ensures Indices(cellSize, bounds).Height == Ceiling(bounds.Max.Y / cellSize - bounds.Min.Y / cellSize)
  {
  }

  /** `Indices` is the rectangle whose location brackets the scaled minimum
      corner from below and whose size brackets the scaled extent from above. */
  lemma IndicesAre(cellSize: real, bounds: AABB, r: Rectangle)
    requires cellSize != 0.0
    requires r.X as real <= bounds.Min.X / cellSize < r.X as real + 1.0
    requires r.Y as real <= bounds.Min.Y / cellSize < r.Y as real + 1.0
    requires r.Width as real - 1.0 < bounds.Max.X / cellSize - bounds.Min.X / cellSize <= r.Width as real
    requires r.Height as real - 1.0 < bounds.Max.Y / cellSize - bounds.Min.Y / cellSize <= r.Height as real
    ensures Indices(cellSize, bounds) == r
  {
    FloorIs(bounds.Min.X / cellSize, r.X);
    FloorIs(bounds.Min.Y / cellSize, r.Y);
    CeilingIs(bounds.Max.X / cellSize - bounds.Min.X / cellSize, r.Width);
    CeilingIs(bounds.Max.Y / cellSize - bounds.Min.Y / cellSize, r.Height);
  }

  /** The first case of lette.tests/TestSpatialMap.cs:27-29. */
  lemma IndicesUnitExample()
    ensures Indices(10.0, Box(0.0, 0.0, 1.0, 1.0)) == Rectangle(0, 0, 1, 1)
  {
    IndicesAre(10.0, Box(0.0, 0.0, 1.0, 1.0), Rectangle(0, 0, 1, 1));
  }

  /** The third case of lette.tests/TestSpatialMap.cs:35-37. */
  lemma IndicesFractionExample()
    ensures Indices(1.0, Box(-0.5, 0.5, 3.0, 1.0)) == Rectangle(-1, 0, 4, 1)
  {
    IndicesAre(1.0, Box(-0.5, 0.5, 3.0, 1.0), Rectangle(-1, 0, 4, 1));
  }

  /** The second case gives a size of 1, not the 2 the test expects there:
      the box spans two cells but starts in cell -1. */
  lemma IndicesNegativeExample()
    ensures Indices(10.0, Box(-1.0, -1.0, 2.0, 2.0)) == Rectangle(-1, -1, 1, 1)
  {
    IndicesAre(10.0, Box(-1.0, -1.0, 2.0, 2.0), Rectangle(-1, -1, 1, 1));
  }

  /** `Key`: the `long` value of `(long)x | ((long)y << 32)`. For a
      non-negative column it is `x + y * 2^32`; for a negative column the
      sign extension of `x` covers the row and it is `x` itself.
      `KeyIsBitwiseOr` proves this equal to the bit expression. */
  function Key(x: int, y: int): (k: int)
    requires IsInt32(x) && IsInt32(y)
    ensures LongBits.IsInt64(k)
  {
    if x >= 0 then x + y * LongBits.TWO_32 else x
  }

  /** The key is the source's expression, computed on 64-bit patterns. */
  lemma KeyIsBitwiseOr(x: int, y: int)
    requires IsInt32(x) && IsInt32(y)
    ensures Key(x, y) == LongBits.Or(x, LongBits.ShiftLeft32(y))
  {
    LongBits.ShiftLeft32OfInt(y);
    if x >= 0 {
      LongBits.OrNonNegativeLow(x, y);
    } else {
      LongBits.OrNegativeLow(x, y);
    }
  }

  /** The key of a cell. The loops only reach cells with `int` coordinates;
      any other pair is given the key 0. */
  function CellKey(c: Cell): int
  {
    if IsCell(c) then Key(c.0, c.1) else 0
  }

  /** Two cells share a key exactly when they are the same cell or lie in
      the same negative column: the key is injective on non-negative columns
      and collapses every negative column to one key. */
  lemma KeyCollisions(c: Cell, d: Cell)
    requires IsCell(c) && IsCell(d)
    ensures CellKey(c) == CellKey(d) <==> c == d || c.0 == d.0 < 0
  {
    var t := LongBits.TWO_32;
    if c.0 >= 0 && d.0 >= 0 && CellKey(c) == CellKey(d) {
      assert c.0 - d.0 == (d.1 - c.1) * t;
    } else if c.0 >= 0 && d.0 < 0 {
      if c.1 >= 0 {
        assert c.1 * t >= 0;
      } else {
        assert c.1 * t <= -t;
      }
    } else if c.0 < 0 && d.0 >= 0 {
      if d.1 >= 0 {
        assert d.1 * t >= 0;
      } else {
        assert d.1 * t <= -t;
      }
    }
  }

  /** The last column plus one and the last row plus one that the loops
      over `r` reach, or the start when the loop runs no step. */
  function ColumnEnd(r: Rectangle): int { if r.Width > r.X then r.Width else r.X }

  function RowEnd(r: Rectangle): int { if r.Height > r.Y then r.Height else r.Y }

  /** A point the loops `for x = X; x < Width` / `for y = Y; y < Height`
      over `r` can be at: column `x`, before row `y`. */
  predicate LoopPoint(r: Rectangle, x: int, y: int)
  {
    && IsInt32Rectangle(r)
    && r.X <= x <= ColumnEnd(r) && r.Y <= y <= RowEnd(r)
    && (x == ColumnEnd(r) ==> y == r.Y)
  }

  /** The cells the loops over `r` have visited on reaching column `x`,
      before row `y`, in visiting order. */
  function Before(r: Rectangle, x: int, y: int): seq<Cell>
    decreases x - r.X, y - r.Y
  {
    if y > r.Y then Before(r, x, y - 1) + [(x, y - 1)]
    else if x > r.X then Before(r, x - 1, RowEnd(r))
    else []
  }

  /** The cells before column `x`, row `y`: the earlier columns with all
      their rows, then the earlier rows of column `x`. */
  predicate InBefore(c: Cell, r: Rectangle, x: int, y: int)
  {
    (r.X <= c.0 < x && r.Y <= c.1 < r.Height) || (c.0 == x && r.Y <= c.1 < y)
  }

  lemma {:induction false} BeforeCells(r: Rectangle, x: int, y: int, c: Cell)
    ensures c in Before(r, x, y) <==> InBefore(c, r, x, y)
    decreases x - r.X, y - r.Y
  {
    if y > r.Y {
      BeforeCells(r, x, y - 1, c);
    } else if x > r.X {
      BeforeCells(r, x - 1, RowEnd(r), c);
    }
  }

  /** Every cell is visited once: one per column and row passed. */
  lemma {:induction false} BeforeSize(r: Rectangle, x: int, y: int)
    requires LoopPoint(r, x, y)
    ensures |Before(r, x, y)| == (x - r.X) * (RowEnd(r) - r.Y) + (y - r.Y)
    decreases x - r.X, y - r.Y
  {
    if y > r.Y {
      BeforeSize(r, x, y - 1);
    } else if x > r.X {
      BeforeSize(r, x - 1, RowEnd(r));
    }
  }

  /** The cells the loops over `r` visit. `Width` and `Height` of the
      rounded rectangle are sizes, but the loops use them as exclusive end
      coordinates. */
  function Span(r: Rectangle): seq<Cell>
  {
    Before(r, ColumnEnd(r), r.Y)
  }

  /** The loops over `r` visit exactly the cells `X <= x < Width`,
      `Y <= y < Height`. */
  lemma SpanCells(r: Rectangle, c: Cell)
    ensures c in Span(r) <==> r.X <= c.0 < r.Width && r.Y <= c.1 < r.Height
  {
    BeforeCells(r, ColumnEnd(r), r.Y, c);
  }

  /** ... once each: as many cells as columns times rows. */
  lemma SpanSize(r: Rectangle)
    requires IsInt32Rectangle(r)
    ensures |Span(r)| == (ColumnEnd(r) - r.X) * (RowEnd(r) - r.Y)
  {
    BeforeSize(r, ColumnEnd(r), r.Y);
  }

  /** The keys of the cells before column `x`, row `y`, as the loops compute them. */
  function Visited(r: Rectangle, x: int, y: int): seq<int>
    decreases x - r.X, y - r.Y
  {
    if y > r.Y then Visited(r, x, y - 1) + [CellKey((x, y - 1))]
    else if x > r.X then Visited(r, x - 1, RowEnd(r))
    else []
  }

  /** The keys the loops over `r` visit, in order. */
  function SpanKeys(r: Rectangle): seq<int>
  {
    Visited(r, ColumnEnd(r), r.Y)
  }

  /** The condition at lines 76 and 81, kept as written: the cell `c` counts
      as outside `r` unless `r.Width < x` and `r.Height < y` and `c` is at or
      after the location of `r`. */
  function OutsideAsWritten(c: Cell, r: Rectangle): (b: bool)
    ensures r.X <= c.0 < r.Width && r.Y <= c.1 < r.Height ==> b
  {
    c.0 < r.X || r.Width >= c.0 || c.1 < r.Y || r.Height >= c.1
  }

  /** The condition never holds back a cell of the rectangle's own span
      (there `x < Width`), so when the old and the new indices agree, `Update`
      visits every cell in both loops. */
  lemma OutsideOfOwnSpan(r: Rectangle, c: Cell)
    requires r.X <= c.0 < r.Width && r.Y <= c.1 < r.Height
    ensures OutsideAsWritten(c, r)
  {
  }

  /** The same, counting only the cells that pass the condition against
      `other`: the keys a loop of `Update` visits. */
  function VisitedOutside(r: Rectangle, other: Rectangle, x: int, y: int): seq<int>
    decreases x - r.X, y - r.Y
  {
    if y > r.Y then
      VisitedOutside(r, other, x, y - 1) + (if OutsideAsWritten((x, y - 1), other) then [CellKey((x, y - 1))] else [])
    else if x > r.X then VisitedOutside(r, other, x - 1, RowEnd(r))
    else []
  }

  /** The keys a loop of `Update` over `r` visits, against `other`. */
  function OutsideKeys(r: Rectangle, other: Rectangle): seq<int>
  {
    VisitedOutside(r, other, ColumnEnd(r), r.Y)
  }

  /** The cells of `cells` that pass `OutsideAsWritten` against `r`, in order. */
  function Outside(cells: seq<Cell>, r: Rectangle): (sub: seq<Cell>)
    ensures forall c :: c in sub <==> c in cells && OutsideAsWritten(c, r)
  {
    if cells == [] then []
    else
      var rest := Outside(cells[..|cells| - 1], r);
      assert cells == cells[..|cells| - 1] + [cells[|cells| - 1]];
      if OutsideAsWritten(cells[|cells| - 1], r) then rest + [cells[|cells| - 1]] else rest
  }

  lemma OutsideSnoc(cells: seq<Cell>, c: Cell, r: Rectangle)
    ensures Outside(cells + [c], r) == Outside(cells, r) + (if OutsideAsWritten(c, r) then [c] else [])
  {
    assert (cells + [c])[..|cells|] == cells;
  }

  /** The keys of the visited cells, in visiting order. */
  function Keys(cells: seq<Cell>): (keys: seq<int>)
    ensures |keys| == |cells|
    ensures forall i :: 0 <= i < |cells| ==> keys[i] == CellKey(cells[i])
  {
    if cells == [] then []
    else
      Keys(cells[..|cells| - 1]) + [CellKey(cells[|cells| - 1])]
  }

  lemma KeysSnoc(cells: seq<Cell>, c: Cell)
    ensures Keys(cells + [c]) == Keys(cells) + [CellKey(c)]
  {
    assert (cells + [c])[..|cells|] == cells;
  }

  /** A key occurs among the keys of `cells` exactly when some cell has it. */
  lemma KeyOccurs(cells: seq<Cell>, k: int)
    ensures k in Keys(cells) <==> exists c :: c in cells && CellKey(c) == k
  {
    if k in Keys(cells) {
      var i :| 0 <= i < |cells| && Keys(cells)[i] == k;
      assert cells[i] in cells;
    }
  }

  lemma {:induction false} VisitedIsKeys(r: Rectangle, x: int, y: int)
    ensures Visited(r, x, y) == Keys(Before(r, x, y))
    decreases x - r.X, y - r.Y
  {
    if y > r.Y {
      VisitedIsKeys(r, x, y - 1);
      KeysSnoc(Before(r, x, y - 1), (x, y - 1));
    } else if x > r.X {
      VisitedIsKeys(r, x - 1, RowEnd(r));
    }
  }

  lemma {:induction false} VisitedOutsideIsKeys(r: Rectangle, other: Rectangle, x: int, y: int)
    ensures VisitedOutside(r, other, x, y) == Keys(Outside(Before(r, x, y), other))
    decreases x - r.X, y - r.Y
  {
    if y > r.Y {
      var before := Before(r, x, y - 1);
      VisitedOutsideIsKeys(r, other, x, y - 1);
      OutsideSnoc(before, (x, y - 1), other);
      if OutsideAsWritten((x, y - 1), other) {
        KeysSnoc(Outside(before, other), (x, y - 1));
      }
    } else if x > r.X {
      VisitedOutsideIsKeys(r, other, x - 1, RowEnd(r));
    }
  }

  /** A key is visited by the loops over `r` exactly when it is the key of
      one of the cells of `r`. */
  lemma SpanKeysCells(r: Rectangle, k: int)
    ensures k in SpanKeys(r) <==> exists c: Cell :: r.X <= c.0 < r.Width && r.Y <= c.1 < r.Height && CellKey(c) == k
  {
    VisitedIsKeys(r, ColumnEnd(r), r.Y);
    KeyOccurs(Span(r), k);
    if k in SpanKeys(r) {
      var c :| c in Span(r) && CellKey(c) == k;
      SpanCells(r, c);
    } else {
      forall c: Cell | r.X <= c.0 < r.Width && r.Y <= c.1 < r.Height
        ensures CellKey(c) != k
      {
        SpanCells(r, c);
      }
    }
  }

  /** A key is visited by a loop of `Update` over `r` exactly when it is the
      key of a cell of `r` that passes the condition against `other`. */
  lemma OutsideKeysCells(r: Rectangle, other: Rectangle, k: int)
    ensures k in OutsideKeys(r, other) <==>
      exists c: Cell :: r.X <= c.0 < r.Width && r.Y <= c.1 < r.Height && OutsideAsWritten(c, other) && CellKey(c) == k
  {
    VisitedOutsideIsKeys(r, other, ColumnEnd(r), r.Y);
    KeyOccurs(Outside(Span(r), other), k);
    if k in OutsideKeys(r, other) {
      var c :| c in Outside(Span(r), other) && CellKey(c) == k;
      SpanCells(r, c);
    } else {
      forall c: Cell | r.X <= c.0 < r.Width && r.Y <= c.1 < r.Height && OutsideAsWritten(c, other)
        ensures CellKey(c) != k
      {
        SpanCells(r, c);
      }
    }
  }

  /** No element occurs twice. */
  predicate NoRepeats<E(==)>(s: seq<E>)
  {
    forall i, j :: 0 <= i < j < |s| ==> s[i] != s[j]
  }

  lemma NoRepeatsSnoc(keys: seq<int>, k: int)
    requires NoRepeats(keys) && k !in keys
    ensures NoRepeats(keys + [k])
  {
  }

  /** In a rectangle of non-negative columns the key of a cell is not the key
      of any cell visited before it. */
  lemma NextKeyIsNew(r: Rectangle, x: int, y: int)
    requires LoopPoint(r, x, y + 1) && r.X >= 0 && y >= r.Y
    ensures CellKey((x, y)) !in Visited(r, x, y)
  {
    VisitedIsKeys(r, x, y);
    KeyOccurs(Before(r, x, y), CellKey((x, y)));
    if CellKey((x, y)) in Visited(r, x, y) {
      var c :| c in Before(r, x, y) && CellKey(c) == CellKey((x, y));
      BeforeCells(r, x, y, c);
      KeyCollisions(c, (x, y));
    }
  }

  lemma {:induction false} VisitedNoRepeats(r: Rectangle, x: int, y: int)
    requires LoopPoint(r, x, y) && r.X >= 0
    ensures NoRepeats(Visited(r, x, y))
    decreases x - r.X, y - r.Y
  {
    if y > r.Y {
      VisitedNoRepeats(r, x, y - 1);
      NextKeyIsNew(r, x, y - 1);
      NoRepeatsSnoc(Visited(r, x, y - 1), CellKey((x, y - 1)));
    } else if x > r.X {
      VisitedNoRepeats(r, x - 1, RowEnd(r));
    }
  }

  /** For a rectangle at non-negative columns no two visited cells share a
      key, so every visited key is visited once. */
  lemma SpanKeysDistinct(r: Rectangle)
    requires IsInt32Rectangle(r) && r.X >= 0
    ensures NoRepeats(SpanKeys(r))
  {
    VisitedNoRepeats(r, ColumnEnd(r), r.Y);
  }

  /** The number of times `k` occurs in `keys`. */
  function Occurrences(keys: seq<int>, k: int): nat
  {
    if keys == [] then 0 else Occurrences(keys[..|keys| - 1], k) + (if keys[|keys| - 1] == k then 1 else 0)
  }

  /** Without repeats, a key occurs once if at all. */
  lemma {:induction false} OccurrencesOfNoRepeats(keys: seq<int>, k: int)
    requires NoRepeats(keys)
    ensures Occurrences(keys, k) == if k in keys then 1 else 0
  {
    if keys != [] {
      var prefix, last := keys[..|keys| - 1], keys[|keys| - 1];
      assert keys == prefix + [last];
      assert NoRepeats(prefix);
      OccurrencesOfNoRepeats(prefix, k);
    }
  }

}
