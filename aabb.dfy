/** `AABB` (lette/Source/Core/AABB.cs): an axis-aligned box given by its two
    corners, with a strict overlap test, rounding to an integer rectangle,
    equality and arithmetic on both corners. */
module BoundingBox {
  import opened Framework
  import opened Extensions

  datatype AABB = AABB(Min: Vector2, Max: Vector2)

  /** A box with the given corner coordinates (a test convenience). */
  function Box(minX: real, minY: real, maxX: real, maxY: real): AABB
  {
    AABB(Vector2(minX, minY), Vector2(maxX, maxY))
  }

  /** `p` lies strictly inside `a`. */
  predicate Inside(p: Vector2, a: AABB)
  {
    a.Min.X < p.X < a.Max.X && a.Min.Y < p.Y < a.Max.Y
  }

  /** Both axes of `a` have positive extent. */
  predicate Proper(a: AABB)
  {
    a.Min.X < a.Max.X && a.Min.Y < a.Max.Y
  }

  /** The centre of the region two boxes have in common. */
  function MeetPoint(a: AABB, b: AABB): Vector2
  {
    Vector2(((if a.Min.X < b.Min.X then b.Min.X else a.Min.X) + (if a.Max.X < b.Max.X then a.Max.X else b.Max.X)) / 2.0,
            ((if a.Min.Y < b.Min.Y then b.Min.Y else a.Min.Y) + (if a.Max.Y < b.Max.Y then a.Max.Y else b.Max.Y)) / 2.0)
  }

  /** `Overlaps`: the open interiors intersect on both axes. Any point
      strictly inside both boxes makes them overlap, and two boxes of
      positive extent that overlap have the centre of their common region
      strictly inside both. */
  function Overlaps(a: AABB, other: AABB): (r: bool)
    ensures (exists p :: Inside(p, a) && Inside(p, other)) ==> r
    ensures r && Proper(a) && Proper(other) ==> Inside(MeetPoint(a, other), a) && Inside(MeetPoint(a, other), other)
  {
    a.Min.X < other.Max.X && other.Min.X < a.Max.X &&
    a.Min.Y < other.Max.Y && other.Min.Y < a.Max.Y
  }

  lemma OverlapsSymmetric(a: AABB, b: AABB)
    ensures Overlaps(a, b) == Overlaps(b, a)
  {
  }

  /** A box overlaps itself exactly when it has positive extent on both axes. */
  lemma SelfOverlap(a: AABB)
    ensures Overlaps(a, a) <==> a.Min.X < a.Max.X && a.Min.Y < a.Max.Y
  {
  }

  /** Boxes that only share an edge, vertical or horizontal, do not overlap. */
  lemma TouchingDoesNotOverlap(a: AABB, b: AABB)
    requires a.Max.X == b.Min.X || a.Max.Y == b.Min.Y
    ensures !Overlaps(a, b) && !Overlaps(b, a)
  {
  }

  /** The three cases of lette.tests/TestAABB.cs. */
  lemma OverlapExamples()
    ensures Overlaps(Box(0.0, 0.0, 1.0, 1.0), Box(-1.0, -1.0, 2.0, 2.0))
    ensures !Overlaps(Box(0.0, 0.0, 1.0, 1.0), Box(1.0, 0.0, 1.0, 1.0))
    ensures Overlaps(Box(0.0, 0.0, 1.0, 1.0), Box(0.99, 0.0, 1.0, 1.0))
  {
  }

  /** `Round`: the rectangle at the floored minimum corner whose size is the
      ceiled extent. */
  function Round(a: AABB): (r: Rectangle)
    ensures r.X as real <= a.Min.X < r.X as real + 1.0
    ensures r.Y as real <= a.Min.Y < r.Y as real + 1.0
    ensures a.Max.X - a.Min.X <= r.Width as real < a.Max.X - a.Min.X + 1.0
    ensures a.Max.Y - a.Min.Y <= r.Height as real < a.Max.Y - a.Min.Y + 1.0
  {
    RectangleAt(FFloor(a.Min), FCeil(Minus(a.Max, a.Min)))
  }

  /** The size of the rounded rectangle is non-negative for a box whose
      corners are ordered, and zero exactly on a degenerate axis. */
  lemma RoundBounds(a: AABB)
    ensures a.Min.X <= a.Max.X ==> (Round(a).Width == 0 <==> a.Min.X == a.Max.X)
    ensures a.Min.Y <= a.Max.Y ==> (Round(a).Height == 0 <==> a.Min.Y == a.Max.Y)
    ensures a.Min.X <= a.Max.X ==> Round(a).Width >= 0
    ensures a.Min.Y <= a.Max.Y ==> Round(a).Height >= 0
  {
  }

  /** `==`: both corners compare equal componentwise. */
  function Equal(lhs: AABB, rhs: AABB): (r: bool)
    ensures r <==> lhs == rhs
  {
    lhs.Min.X == rhs.Min.X && lhs.Min.Y == rhs.Min.Y &&
    lhs.Max.X == rhs.Max.X && lhs.Max.Y == rhs.Max.Y
  }

  /** `!=`. */
  function NotEqual(lhs: AABB, rhs: AABB): (r: bool)
    ensures r <==> lhs != rhs
  {
    !Equal(lhs, rhs)
  }

  /** The argument of `Equals(object)`: a boxed `AABB` or any other object. */
  datatype Object = BoxedAABB(box: AABB) | OtherObject

  /** `Equals(object)`: the other object is an `AABB` equal to this one. */
  function Equals(a: AABB, other: Object): (r: bool)
    ensures r <==> other == BoxedAABB(a)
  {
    other.BoxedAABB? && Equal(a, other.box)
  }

  /** `==` is exactly structural equality of the boxes (so it is an
      equivalence), `!=` its negation, and `Equals` agrees with `==`. */
  lemma EqualityAgrees(a: AABB, b: AABB)
    ensures Equal(a, b) <==> a == b
    ensures NotEqual(a, b) <==> a != b
    ensures Equals(a, BoxedAABB(b)) <==> Equal(a, b)
    ensures !Equals(a, OtherObject)
  {
  }

  /** `*`: both corners scaled. */
  function Scale(box: AABB, multiplier: real): (r: AABB)
    ensures multiplier != 0.0 ==> Over(r.Min, multiplier) == box.Min && Over(r.Max, multiplier) == box.Max
  {
    AABB(Times(box.Min, multiplier), Times(box.Max, multiplier))
  }

  /** `/`: both corners divided (a zero divisor is outside this model). */
  function Divide(box: AABB, multiplier: real): (r: AABB)
    requires multiplier != 0.0
    ensures Scale(r, multiplier) == box
  {
    AABB(Over(box.Min, multiplier), Over(box.Max, multiplier))
  }

  /** `+`: both corners shifted. */
  function Translate(box: AABB, vec: Vector2): (r: AABB)
    ensures Minus(r.Max, r.Min) == Minus(box.Max, box.Min)
    ensures Minus(r.Min, box.Min) == vec
  {
    AABB(Plus(box.Min, vec), Plus(box.Max, vec))
  }

  /** `-`: both corners shifted back. */
  function TranslateBack(box: AABB, vec: Vector2): (r: AABB)
    ensures Translate(r, vec) == box
  {
    AABB(Minus(box.Min, vec), Minus(box.Max, vec))
  }

  /** Shifting and shifting back, or scaling and dividing by the same
      non-zero factor, gives the original box. */
  lemma ArithmeticInverses(b: AABB, v: Vector2, m: real)
    ensures TranslateBack(Translate(b, v), v) == b
    ensures Translate(TranslateBack(b, v), v) == b
    ensures m != 0.0 ==> Divide(Scale(b, m), m) == b
    ensures m != 0.0 ==> Scale(Divide(b, m), m) == b
  {
  }

  /** Translating both boxes by the same vector preserves overlap. */
  lemma TranslationPreservesOverlap(a: AABB, b: AABB, v: Vector2)
    ensures Overlaps(Translate(a, v), Translate(b, v)) == Overlaps(a, b)
  {
  }

  /** Scaling both boxes by the same positive factor preserves overlap. */
  lemma ScalingPreservesOverlap(a: AABB, b: AABB, m: real)
    requires m > 0.0
    ensures Overlaps(Scale(a, m), Scale(b, m)) == Overlaps(a, b)
  {
    ScaledOverlap(a, b, m);
  }

  lemma ScaledOverlap(a: AABB, b: AABB, m: real)
    requires m > 0.0
    ensures Overlaps(AABB(Times(a.Min, m), Times(a.Max, m)), AABB(Times(b.Min, m), Times(b.Max, m))) == Overlaps(a, b)
  {
    ScaleLess(a.Min.X, b.Max.X, m);
    ScaleLess(b.Min.X, a.Max.X, m);
    ScaleLess(a.Min.Y, b.Max.Y, m);
    ScaleLess(b.Min.Y, a.Max.Y, m);
    SameComparisons(a, b, AABB(Times(a.Min, m), Times(a.Max, m)), AABB(Times(b.Min, m), Times(b.Max, m)));
  }

  /** Two pairs of boxes whose corners compare alike overlap alike. */
  lemma SameComparisons(a: AABB, b: AABB, c: AABB, d: AABB)
    requires a.Min.X < b.Max.X <==> c.Min.X < d.Max.X
    requires b.Min.X < a.Max.X <==> d.Min.X < c.Max.X
    requires a.Min.Y < b.Max.Y <==> c.Min.Y < d.Max.Y
    requires b.Min.Y < a.Max.Y <==> d.Min.Y < c.Max.Y
    ensures Overlaps(c, d) == Overlaps(a, b)
  {
  }

  lemma ScaleLess(x: real, y: real, m: real)
    requires m > 0.0
    ensures x < y <==> x * m < y * m
  {
  }

  /** The implicit conversion from `Rectangle`: the minimum corner is the
      location, the maximum corner the location plus the size. */
  function FromRectangle(rect: Rectangle): (a: AABB)
    ensures a.Min == ToVector2(Location(rect))
    ensures a.Max.X == (rect.X + rect.Width) as real && a.Max.Y == (rect.Y + rect.Height) as real
  {
    var min := ToVector2(Location(rect));
    var max := Plus(min, ToVector2(Size(rect)));
    AABB(min, max)
  }

  /** Rounding the box of a rectangle gives the rectangle back. */
  lemma RoundFromRectangle(rect: Rectangle)
    ensures Round(FromRectangle(rect)) == rect
  {
    var a := FromRectangle(rect);
    FloorCeilOfPoint(Location(rect));
    FloorCeilOfPoint(Size(rect));
    assert Minus(a.Max, a.Min) == ToVector2(Size(rect));
  }
}
