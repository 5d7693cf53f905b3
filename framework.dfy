/** The MonoGame value types the core uses (Microsoft.Xna.Framework), with
    floating-point components modelled as reals. */
module Framework {

  const INT_MIN: int := -0x8000_0000
  const INT_MAX: int :=  0x7FFF_FFFF

  /** A value that a C# `int` can hold. */
  predicate IsInt32(x: int) { INT_MIN <= x <= INT_MAX }

  /** `Vector2`: `==` compares both components, arithmetic is componentwise. */
  datatype Vector2 = Vector2(X: real, Y: real)

  function Plus(u: Vector2, v: Vector2): Vector2 { Vector2(u.X + v.X, u.Y + v.Y) }

  function Minus(u: Vector2, v: Vector2): Vector2 { Vector2(u.X - v.X, u.Y - v.Y) }

  function Times(u: Vector2, m: real): Vector2 { Vector2(u.X * m, u.Y * m) }

  function Over(u: Vector2, m: real): Vector2
    requires m != 0.0
  {
    Vector2(u.X / m, u.Y / m)
  }

  /** `Point`: two integer components. */
  datatype Point = Point(X: int, Y: int)

  function ToVector2(p: Point): Vector2 { Vector2(p.X as real, p.Y as real) }

  /** `Rectangle`: a location and a size, all integers. */
  datatype Rectangle = Rectangle(X: int, Y: int, Width: int, Height: int)

  /** `new Rectangle(location, size)`. */
  function RectangleAt(location: Point, size: Point): Rectangle
  {
    Rectangle(location.X, location.Y, size.X, size.Y)
  }

  function Location(r: Rectangle): Point { Point(r.X, r.Y) }

  function Size(r: Rectangle): Point { Point(r.Width, r.Height) }

  /** Every field of the rectangle fits a C# `int`. */
  predicate IsInt32Rectangle(r: Rectangle)
  {
    IsInt32(r.X) && IsInt32(r.Y) && IsInt32(r.Width) && IsInt32(r.Height)
  }

  /** C#'s `/` on `int` for a positive divisor: the quotient truncated
      toward zero (Dafny's `/` is Euclidean). */
  function TruncDiv(a: int, b: int): int
    requires b > 0
  {
    if a >= 0 then a / b else -((-a) / b)
  }

  /** C#'s `%` on `int` for a positive divisor: the remainder takes the sign
      of the dividend. */
  function TruncRem(a: int, b: int): int
    requires b > 0
  {
    if a >= 0 then a % b else -((-a) % b)
  }

  /** The two agree with each other as C# promises: `a == b * (a / b) + a % b`
      with `|a % b| < b` and the remainder on the side of `a`. */
  lemma TruncDivRem(a: int, b: int)
    requires b > 0
    ensures a == b * TruncDiv(a, b) + TruncRem(a, b)
    ensures -b < TruncRem(a, b) < b
    ensures a >= 0 ==> TruncRem(a, b) >= 0
    ensures a <= 0 ==> TruncRem(a, b) <= 0
  {
  }
}
