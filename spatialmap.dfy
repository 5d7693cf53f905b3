/** `SpatialMap<T>` (lette/Source/Core/SpatialMap.cs): a spatial hash from
    packed cell keys to the lists of entries whose bounds cover that cell.

    Each method runs the loops of the source over the cells of a rounded
    rectangle; what one visit does to `Backing` is the `Step` of
    `SpatialCells`, so every method is specified by the fold `Apply` over the
    keys it visits, and the lemmas of `SpatialCells` say what that fold does
    to each list. */
module Spatial {
  import opened Framework
  import opened BoundingBox
  import opened SpatialCells
  import opened CellFolds
  import opened Regions

  class SpatialMap<T(==,!new)> {
    var CellSize: real
    var Backing: Backing<T>

    constructor(cellSize: real)
      ensures CellSize == cellSize && Backing == map[]
    {
      CellSize := cellSize;
      Backing := map[];
    }

    /** `Cells(bounds, createCells)`: the lists of the cells of
        `Indices(bounds)`, column by column; a missing list is created (and
        left in `Backing`) only when `createCells` holds. */
    method Cells(bounds: AABB, createCells: bool) returns (cells: seq<seq<SpatialEntry<T>>>)
      requires Addressable(CellSize, bounds)
      modifies this`Backing
      ensures Backing == Seeded(old(Backing), SpanKeys(Indices(CellSize, bounds)), createCells)
      ensures cells == Yielded(old(Backing), SpanKeys(Indices(CellSize, bounds)), createCells)
    {
      var r := Indices(CellSize, bounds);
      ghost var m := Backing;
      cells := [];
      var x := r.X;
      while x < r.Width
        invariant r.X <= x <= ColumnEnd(r)
        invariant Backing == SeededBefore(m, r, x, r.Y, createCells)
        invariant cells == YieldedBefore(m, r, x, r.Y, createCells)
      {
        var y := r.Y;
        while y < r.Height
          invariant r.Y <= y <= RowEnd(r)
          invariant Backing == SeededBefore(m, r, x, y, createCells)
          invariant cells == YieldedBefore(m, r, x, y, createCells)
        {
          var key := Key(x, y);
          if key in Backing {
            cells := cells + [Backing[key]];
          } else if createCells {
            Backing := Backing[key := []];
            cells := cells + [[]];
          }
          y := y + 1;
        }
        x := x + 1;
      }
      YieldedBeforeIsYielded(m, r, x, r.Y, createCells);
    }

    /** The loops `Insert` and `Remove` run through `Cells`: `op` at every
        key of `r`'s span, in order. */
    method VisitSpan(r: Rectangle, op: CellOp<T>)
      requires IsInt32Rectangle(r)
      modifies this`Backing
      ensures Backing == Apply(old(Backing), SpanKeys(r), op)
    {
      ghost var m := Backing;
      var x := r.X;
      while x < r.Width
        invariant r.X <= x <= ColumnEnd(r)
        invariant Backing == ApplyBefore(m, r, x, r.Y, op)
      {
        var y := r.Y;
        while y < r.Height
          invariant r.Y <= y <= RowEnd(r)
          invariant Backing == ApplyBefore(m, r, x, y, op)
        {
          Backing := Step(Backing, Key(x, y), op);
          y := y + 1;
        }
        x := x + 1;
      }
      ApplyBeforeIsApply(m, r, x, r.Y, op);
    }

    /** One loop of `Update`: `op` at every key of `r`'s span whose cell
        passes the condition of lines 76 and 81 against `other`. */
    method VisitOutside(r: Rectangle, other: Rectangle, op: CellOp<T>)
      requires IsInt32Rectangle(r)
      modifies this`Backing
      ensures Backing == Apply(old(Backing), OutsideKeys(r, other), op)
    {
      ghost var m := Backing;
      var x := r.X;
      while x < r.Width
        invariant r.X <= x <= ColumnEnd(r)
        invariant Backing == ApplyOutsideBefore(m, r, other, x, r.Y, op)
      {
        var y := r.Y;
        while y < r.Height
          invariant r.Y <= y <= RowEnd(r)
          invariant Backing == ApplyOutsideBefore(m, r, other, x, y, op)
        {
          if x < other.X || other.Width >= x || y < other.Y || other.Height >= y {
            Backing := Step(Backing, Key(x, y), op);
          }
          y := y + 1;
        }
        x := x + 1;
      }
      ApplyOutsideBeforeIsApply(m, r, other, x, r.Y, op);
    }

    /** `Region(bounds, loose)`: the distinct values of the entries in the
        existing cells of `bounds`, keeping only those whose bounds overlap
        `bounds` unless `loose`. Enumerating without creating leaves the map
        as it is, so `Region` reads `Backing` and changes nothing. */
    function Region(bounds: AABB, loose: bool): (values: seq<T>)
      reads this
      requires Addressable(CellSize, bounds)
      ensures NoRepeats(values)
    {
      RegionOf(Backing, SpanKeys(Indices(CellSize, bounds)), bounds, loose)
    }

    /** `Insert(value, pos, bounds)`: the new entry is appended to the list of
        every cell of `bounds`, each created if missing; a key visited more
        than once gets it once per visit. */
    method Insert(value: T, pos: Vector2, bounds: AABB) returns (entry: SpatialEntry<T>)
      requires Addressable(CellSize, bounds)
      modifies this`Backing
      ensures entry == SpatialEntry(bounds, pos, value)
      ensures Backing == Apply(old(Backing), SpanKeys(Indices(CellSize, bounds)), Append(entry))
    {
      entry := SpatialEntry(bounds, pos, value);
      VisitSpan(Indices(CellSize, bounds), Append(entry));
    }

    /** `Remove(entry)`: the first copy of `entry` is removed from each
        existing list of the cells of its bounds; no list is created. */
    method Remove(entry: SpatialEntry<T>)
      requires Addressable(CellSize, entry.Bounds)
      modifies this`Backing
      ensures Backing == Apply(old(Backing), SpanKeys(Indices(CellSize, entry.Bounds)), Drop(entry))
    {
      VisitSpan(Indices(CellSize, entry.Bounds), Drop(entry));
    }

    /** `Update(entry, pos, bounds)`: unchanged position and bounds return the
        entry as it is. Otherwise the first loop removes `entry` from the
        lists of the old cells that pass the condition against the new
        rectangle (each of those lists must exist: the indexer of line 77
        throws on a missing key), the second appends `entry` itself, not the
        new entry, to the lists of the new cells that pass it against the old
        rectangle, and the new entry is returned. */
    method Update(entry: SpatialEntry<T>, pos: Vector2, bounds: AABB) returns (result: SpatialEntry<T>)
      requires Addressable(CellSize, entry.Bounds) && Addressable(CellSize, bounds)
      requires !(entry.Pos == pos && Equal(entry.Bounds, bounds)) ==>
        forall k :: k in OutsideKeys(Indices(CellSize, entry.Bounds), Indices(CellSize, bounds)) ==> k in Backing
      modifies this`Backing
      ensures entry.Pos == pos && Equal(entry.Bounds, bounds) ==> result == entry && Backing == old(Backing)
      ensures !(entry.Pos == pos && Equal(entry.Bounds, bounds)) ==>
        && result == SpatialEntry(bounds, pos, entry.Value)
        && Backing == Updated(old(Backing), Indices(CellSize, entry.Bounds), Indices(CellSize, bounds), entry)
    {
      if entry.Pos == pos && Equal(entry.Bounds, bounds) {
        return entry;
      }
      result := SpatialEntry(bounds, pos, entry.Value);
      var o := Indices(CellSize, entry.Bounds);
      var n := Indices(CellSize, bounds);
      VisitOutside(o, n, Drop(entry));
      VisitOutside(n, o, Append(entry));
    }
  }
}
