/** The bookkeeping of the physics debug view
    (lette/Source/Lib/Physics/DebugView.cs): the vertex buffers of
    `PrimitiveBatch` and their begin/end protocol, the integer formatting of
    `StringBuilderExtensions`, the flag word of `DebugViewBase` and the window
    of the performance graph. The GPU is a log of `DrawUserPrimitives`
    calls; exceptions are outcomes that leave the state as it was at the
    throw. */
module DebugViews {
  import opened Wrappers
  import opened Framework
  import opened DebugFlags

  /** The exceptions of `PrimitiveBatch`: calls out of the begin/end order,
      an unsupported primitive type and an index past the end of a buffer. */
  datatype Failure = InvalidOperation | NotSupported | IndexOutOfRange

  datatype Outcome = Done | Throws(failure: Failure)

  datatype PrimitiveType = TriangleList | TriangleStrip | LineList | LineStrip | PointList

  datatype Vector3 = Vector3(X: real, Y: real, Z: real)

  datatype Color = Color(R: int, G: int, B: int, A: int)

  /** `VertexPositionColor`. */
  datatype Vertex = Vertex(Position: Vector3, Color: Color)

  const Blank := Vertex(Vector3(0.0, 0.0, 0.0), Color(0, 0, 0, 0))

  /** The depths the 2-D `AddVertex` gives each kind of list. */
  const DefaultTriangleListDepth: real := -0.1
  const DefaultLineListDepth: real := 0.0

  /** One `DrawUserPrimitives(type, vertices, 0, primitiveCount)`. */
  datatype Draw = Draw(Type: PrimitiveType, PrimitiveCount: int)

  /** The draw a flush submits for `count` buffered vertices of primitives
      of `per` vertices each: none below one primitive. */
  function Flushed(t: PrimitiveType, count: int, per: int): (draws: seq<Draw>)
    requires per > 0
    ensures |draws| <= 1
    ensures draws != [] <==> count >= per
    ensures draws != [] ==> draws[0].Type == t && draws[0].PrimitiveCount >= 1 && draws[0].PrimitiveCount * per <= count
  {
    if count >= per then [Draw(t, count / per)] else []
  }

  /** The buffer size rounded down to whole triangles, as the constructor
      sizes the triangle buffer. */
  function TriangleBufferLength(bufferSize: int): (length: int)
    requires bufferSize >= 0
    ensures length % 3 == 0 && 0 <= length <= bufferSize && bufferSize - 3 < length
  {
    bufferSize - bufferSize % 3
  }

  /** The buffer size rounded down to whole lines. */
  function LineBufferLength(bufferSize: int): (length: int)
    requires bufferSize >= 0
    ensures length % 2 == 0 && 0 <= length <= bufferSize && bufferSize - 2 < length
  {
    bufferSize - bufferSize % 2
  }

  class PrimitiveBatch {
    var HasBegun: bool
    var TriangleVertices: array<Vertex>
    var TriangleVertsCount: int
    var LineVertices: array<Vertex>
    var LineVertsCount: int
    var Draws: seq<Draw>

    /** The counts stay within their buffers, which hold whole primitives. */
    ghost predicate Valid()
      reads this
    {
      && TriangleVertices != LineVertices
      && 0 <= TriangleVertsCount <= TriangleVertices.Length && TriangleVertices.Length % 3 == 0
      && 0 <= LineVertsCount <= LineVertices.Length && LineVertices.Length % 2 == 0
    }

    /** `new PrimitiveBatch(device, bufferSize)`. */
    constructor(bufferSize: int)
      requires bufferSize >= 0
      ensures Valid() && !HasBegun && Draws == []
      ensures fresh(TriangleVertices) && fresh(LineVertices)
      ensures TriangleVertices.Length == TriangleBufferLength(bufferSize) && TriangleVertsCount == 0
      ensures LineVertices.Length == LineBufferLength(bufferSize) && LineVertsCount == 0
    {
      HasBegun := false;
      TriangleVertices := new Vertex[TriangleBufferLength(bufferSize)](_ => Blank);
      TriangleVertsCount := 0;
      LineVertices := new Vertex[LineBufferLength(bufferSize)](_ => Blank);
      LineVertsCount := 0;
      Draws := [];
    }

    /** `Begin(...)`: only between an `End` and the next `Begin`. */
    method Begin() returns (o: Outcome)
      modifies this`HasBegun
      ensures o == if old(HasBegun) then Throws(InvalidOperation) else Done
      ensures HasBegun
    {
      if HasBegun {
        return Throws(InvalidOperation);
      }
      HasBegun := true;
      o := Done;
    }

    /** `IsReady()`. */
    function IsReady(): (ready: bool)
      reads this
      ensures ready == HasBegun
    {
      HasBegun
    }

    /** `FlushTriangles()`: submits the whole triangles buffered, if any,
        and empties the buffer. */
    method FlushTriangles() returns (o: Outcome)
      requires Valid()
      modifies this`TriangleVertsCount, this`Draws
      ensures Valid()
      ensures o == if HasBegun then Done else Throws(InvalidOperation)
      ensures Draws == old(Draws) + (if HasBegun then Flushed(TriangleList, old(TriangleVertsCount), 3) else [])
      ensures TriangleVertsCount == if HasBegun && old(TriangleVertsCount) >= 3 then 0 else old(TriangleVertsCount)
    {
      if !HasBegun {
        return Throws(InvalidOperation);
      }
      if TriangleVertsCount >= 3 {
        Draws := Draws + [Draw(TriangleList, TriangleVertsCount / 3)];
        TriangleVertsCount := 0;
      }
      o := Done;
    }

    /** `FlushLines()`: the same for whole lines. */
    method FlushLines() returns (o: Outcome)
      requires Valid()
      modifies this`LineVertsCount, this`Draws
      ensures Valid()
      ensures o == if HasBegun then Done else Throws(InvalidOperation)
      ensures Draws == old(Draws) + (if HasBegun then Flushed(LineList, old(LineVertsCount), 2) else [])
      ensures LineVertsCount == if HasBegun && old(LineVertsCount) >= 2 then 0 else old(LineVertsCount)
    {
      if !HasBegun {
        return Throws(InvalidOperation);
      }
      if LineVertsCount >= 2 {
        Draws := Draws + [Draw(LineList, LineVertsCount / 2)];
        LineVertsCount := 0;
      }
      o := Done;
    }

    /** The `TriangleList` case of `AddVertex`: a full buffer is flushed
        first; the vertex goes to the slot the count names, which is
        returned, and the count moves past it. An empty buffer has no slot. */
    method AddTriangleVertex(v: Vertex) returns (r: Result<int, Failure>)
      requires Valid() && HasBegun
      modifies this`TriangleVertsCount, this`Draws, TriangleVertices
      ensures Valid()
      ensures Draws == old(Draws) +
        (if old(TriangleVertsCount) >= TriangleVertices.Length then Flushed(TriangleList, old(TriangleVertsCount), 3) else [])
      ensures TriangleVertices.Length == 0 ==>
        r == Err(IndexOutOfRange) && TriangleVertsCount == old(TriangleVertsCount) && TriangleVertices[..] == old(TriangleVertices[..])
      ensures TriangleVertices.Length > 0 ==>
        && r == Ok(if old(TriangleVertsCount) >= TriangleVertices.Length then 0 else old(TriangleVertsCount))
        && TriangleVertsCount == r.value + 1
        && TriangleVertices[..] == old(TriangleVertices[..])[r.value := v]
    {
      if TriangleVertsCount >= TriangleVertices.Length {
        var _ := FlushTriangles();
      }
      if TriangleVertsCount >= TriangleVertices.Length {
        return Err(IndexOutOfRange);
      }
      TriangleVertices[TriangleVertsCount] := v;
      r := Ok(TriangleVertsCount);
      TriangleVertsCount := TriangleVertsCount + 1;
    }

    /** The `LineList` case of `AddVertex`. */
    method AddLineVertex(v: Vertex) returns (r: Result<int, Failure>)
      requires Valid() && HasBegun
      modifies this`LineVertsCount, this`Draws, LineVertices
      ensures Valid()
      ensures Draws == old(Draws) +
        (if old(LineVertsCount) >= LineVertices.Length then Flushed(LineList, old(LineVertsCount), 2) else [])
      ensures LineVertices.Length == 0 ==>
        r == Err(IndexOutOfRange) && LineVertsCount == old(LineVertsCount) && LineVertices[..] == old(LineVertices[..])
      ensures LineVertices.Length > 0 ==>
        && r == Ok(if old(LineVertsCount) >= LineVertices.Length then 0 else old(LineVertsCount))
        && LineVertsCount == r.value + 1
        && LineVertices[..] == old(LineVertices[..])[r.value := v]
    {
      if LineVertsCount >= LineVertices.Length {
        var _ := FlushLines();
      }
      if LineVertsCount >= LineVertices.Length {
        return Err(IndexOutOfRange);
      }
      LineVertices[LineVertsCount] := v;
      r := Ok(LineVertsCount);
      LineVertsCount := LineVertsCount + 1;
    }

    /** `AddVertex(ref Vector3 position, color, primitiveType)`: only after
        `Begin`, and only for triangle and line lists. */
    method AddVertex3(position: Vector3, color: Color, primitiveType: PrimitiveType) returns (r: Result<int, Failure>)
      requires Valid()
      modifies this`TriangleVertsCount, this`LineVertsCount, this`Draws, TriangleVertices, LineVertices
      ensures Valid()
      ensures !old(HasBegun) || !(primitiveType.TriangleList? || primitiveType.LineList?) ==>
        && r == Err(if old(HasBegun) then NotSupported else InvalidOperation)
        && Draws == old(Draws) && TriangleVertsCount == old(TriangleVertsCount) && LineVertsCount == old(LineVertsCount)
        && TriangleVertices[..] == old(TriangleVertices[..]) && LineVertices[..] == old(LineVertices[..])
      ensures old(HasBegun) && primitiveType.TriangleList? ==>
        && LineVertsCount == old(LineVertsCount) && LineVertices[..] == old(LineVertices[..])
        && Draws == old(Draws) +
             (if old(TriangleVertsCount) >= TriangleVertices.Length then Flushed(TriangleList, old(TriangleVertsCount), 3) else [])
        && (r.Ok? <==> TriangleVertices.Length > 0)
        && (r.Ok? ==> 0 <= r.value < TriangleVertices.Length && TriangleVertsCount == r.value + 1)
        && (r.Ok? ==> TriangleVertices[r.value] == Vertex(position, color))
      ensures old(HasBegun) && primitiveType.LineList? ==>
        && TriangleVertsCount == old(TriangleVertsCount) && TriangleVertices[..] == old(TriangleVertices[..])
        && Draws == old(Draws) +
             (if old(LineVertsCount) >= LineVertices.Length then Flushed(LineList, old(LineVertsCount), 2) else [])
        && (r.Ok? <==> LineVertices.Length > 0)
        && (r.Ok? ==> 0 <= r.value < LineVertices.Length && LineVertsCount == r.value + 1)
        && (r.Ok? ==> LineVertices[r.value] == Vertex(position, color))
    {
      if !HasBegun {
        return Err(InvalidOperation);
      }
      match primitiveType
      case TriangleList =>
        r := AddTriangleVertex(Vertex(position, color));
      case LineList =>
        r := AddLineVertex(Vertex(position, color));
      case _ =>
        r := Err(NotSupported);
    }

    /** `AddVertex(ref Vector2 position, color, primitiveType)`: the 2-D
        position at the default depth of its kind of list. */
    method AddVertex(position: Vector2, color: Color, primitiveType: PrimitiveType) returns (r: Result<int, Failure>)
      requires Valid()
      modifies this`TriangleVertsCount, this`LineVertsCount, this`Draws, TriangleVertices, LineVertices
      ensures Valid()
      ensures !old(HasBegun) || !(primitiveType.TriangleList? || primitiveType.LineList?) ==>
        && r == Err(if old(HasBegun) then NotSupported else InvalidOperation)
        && Draws == old(Draws) && TriangleVertsCount == old(TriangleVertsCount) && LineVertsCount == old(LineVertsCount)
        && TriangleVertices[..] == old(TriangleVertices[..]) && LineVertices[..] == old(LineVertices[..])
      ensures old(HasBegun) && primitiveType.TriangleList? ==>
        && LineVertsCount == old(LineVertsCount) && LineVertices[..] == old(LineVertices[..])
        && Draws == old(Draws) +
             (if old(TriangleVertsCount) >= TriangleVertices.Length then Flushed(TriangleList, old(TriangleVertsCount), 3) else [])
        && (r.Ok? <==> TriangleVertices.Length > 0)
        && (r.Ok? ==> 0 <= r.value < TriangleVertices.Length && TriangleVertsCount == r.value + 1)
        && (r.Ok? ==> TriangleVertices[r.value] == Vertex(Vector3(position.X, position.Y, DefaultTriangleListDepth), color))
      ensures old(HasBegun) && primitiveType.LineList? ==>
        && TriangleVertsCount == old(TriangleVertsCount) && TriangleVertices[..] == old(TriangleVertices[..])
        && Draws == old(Draws) +
             (if old(LineVertsCount) >= LineVertices.Length then Flushed(LineList, old(LineVertsCount), 2) else [])
        && (r.Ok? <==> LineVertices.Length > 0)
        && (r.Ok? ==> 0 <= r.value < LineVertices.Length && LineVertsCount == r.value + 1)
        && (r.Ok? ==> LineVertices[r.value] == Vertex(Vector3(position.X, position.Y, DefaultLineListDepth), color))
    {
      var z := if primitiveType.TriangleList? then DefaultTriangleListDepth else DefaultLineListDepth;
      r := AddVertex3(Vector3(position.X, position.Y, z), color, primitiveType);
    }

    /** `End()`: flushes both buffers and ends the batch; what is left
        buffered is less than one primitive of each kind. */
    method End() returns (o: Outcome)
      requires Valid()
      modifies this`HasBegun, this`TriangleVertsCount, this`LineVertsCount, this`Draws
      ensures Valid()
      ensures !old(HasBegun) ==>
        o == Throws(InvalidOperation) && !HasBegun && Draws == old(Draws)
        && TriangleVertsCount == old(TriangleVertsCount) && LineVertsCount == old(LineVertsCount)
      ensures old(HasBegun) ==>
        && o == Done && !HasBegun
        && Draws == old(Draws) + Flushed(TriangleList, old(TriangleVertsCount), 3) + Flushed(LineList, old(LineVertsCount), 2)
        && TriangleVertsCount == (if old(TriangleVertsCount) >= 3 then 0 else old(TriangleVertsCount))
        && LineVertsCount == (if old(LineVertsCount) >= 2 then 0 else old(LineVertsCount))
        && TriangleVertsCount < 3 && LineVertsCount < 2
    {
      if !HasBegun {
        return Throws(InvalidOperation);
      }
      var _ := FlushTriangles();
      var _ := FlushLines();
      HasBegun := false;
      o := Done;
    }
  }

  /** A `StringBuilder`: the text appended so far. */
  class StringBuilder {
    var Text: string

    constructor()
      ensures Text == ""
    {
      Text := "";
    }

    method Append(c: char)
      modifies this
      ensures Text == old(Text) + [c]
    {
      Text := Text + [c];
    }
  }

  /** The decimal digit character of `d`. */
  function DigitChar(d: int): char
    requires 0 <= d < 10
  {
    (48 + d) as char
  }

  predicate IsDigit(c: char) { 48 <= c as int <= 57 }

  /** The decimal numeral of `n`: most significant digit first, no leading
      zero, `"0"` for zero. */
  function Digits(n: nat): (s: string)
    ensures |s| >= 1 && (s[0] == '0' ==> n == 0)
    ensures forall i :: 0 <= i < |s| ==> IsDigit(s[i])
  {
    if n < 10 then [DigitChar(n)] else Digits(n / 10) + [DigitChar(n % 10)]
  }

  /** The number a string of decimal digits denotes. */
  function ValueOf(s: string): nat
    requires forall i :: 0 <= i < |s| ==> IsDigit(s[i])
  {
    if s == [] then 0
    else
      assert IsDigit(s[|s| - 1]);
      ValueOf(s[..|s| - 1]) * 10 + (s[|s| - 1] as int - 48)
  }

  /** Reading a numeral back gives the number. */
  lemma {:induction false} DigitsValue(n: nat)
    ensures ValueOf(Digits(n)) == n
  {
    if n >= 10 {
      DigitsValue(n / 10);
      var s := Digits(n);
      assert s[..|s| - 1] == Digits(n / 10);
    }
  }

  /** The characters `AppendInt(sb, value)` appends, as written: the digit
      `'0' + value % 10` is computed with C#'s remainder, which is negative
      for a negative `value`, and the rest of the number is appended first
      while `value / 10` is positive. */
  function IntText(value: int): (s: string)
    requires IsInt32(value)
    ensures |s| >= 1
    ensures value >= 0 ==> forall i :: 0 <= i < |s| ==> IsDigit(s[i])
    ensures value < 0 ==> |s| == 1 && !IsDigit(s[0]) == (TruncRem(value, 10) != 0)
    decreases if value > 0 then value else 0
  {
    var ch := (48 + TruncRem(value, 10)) as char;
    var rest := TruncDiv(value, 10);
    (if rest > 0 then IntText(rest) else []) + [ch]
  }

  /** For a non-negative `value`, `AppendInt` appends its numeral. */
  lemma {:induction false} IntTextIsDigits(value: int)
    requires 0 <= value <= INT_MAX
    ensures IntText(value) == Digits(value)
    decreases value
  {
    if value >= 10 {
      IntTextIsDigits(value / 10);
    }
  }

  /** `-value` on a C# `int`: unchecked, so `int.MinValue` negates to
      itself. */
  function Negate32(value: int): (r: int)
    requires IsInt32(value)
    ensures IsInt32(r)
    ensures value != INT_MIN ==> r == -value
    ensures value == INT_MIN ==> r == INT_MIN
  {
    if value == INT_MIN then INT_MIN else -value
  }

  /** The characters `AppendNumber(sb, value)` appends, as written. */
  function NumberText(value: int): (s: string)
    requires IsInt32(value)
    ensures |s| >= 1 && (s[0] == '-' <==> value < 0)
    ensures INT_MIN < value ==> forall i :: (if value < 0 then 1 else 0) <= i < |s| ==> IsDigit(s[i])
  {
    if value < 0 then "-" + IntText(Negate32(value)) else IntText(value)
  }

  /** For every `int` but `int.MinValue`, `AppendNumber` appends a minus
      sign for a negative value and then the numeral of its magnitude. */
  lemma NumberTextIsDecimal(value: int)
    requires INT_MIN < value <= INT_MAX
    ensures NumberText(value) == DecimalText(value)
  {
    if value < 0 {
      IntTextIsDigits(-value);
    } else {
      IntTextIsDigits(value);
    }
  }

  /** `int.MinValue` negates to itself, `MinValue % 10` is `-8` and
      `'0' - 8` is `'('`, so `AppendNumber(int.MinValue)` appends `"-("`. */
  lemma NumberTextOfMinValue()
    ensures NumberText(INT_MIN) == "-("
  {
    assert TruncRem(INT_MIN, 10) == -8;
    assert TruncDiv(INT_MIN, 10) == -214748364;
  }

  /** The evidently intended text: a minus sign for a negative value and
      the numeral of its magnitude. */
  function DecimalText(value: int): (s: string)
    ensures |s| >= 1 && (s[0] == '-' <==> value < 0)
    ensures value < 0 ==> |s| >= 2
    ensures forall i :: (if value < 0 then 1 else 0) <= i < |s| ==> IsDigit(s[i])
  {
    (if value < 0 then "-" else "") + Digits(if value < 0 then -value else value)
  }

  /** The intended text reads back as the number, for every integer. */
  lemma {:induction false} DecimalTextValue(value: int)
    ensures value < 0 ==> DecimalText(value)[0] == '-' && ValueOf(DecimalText(value)[1..]) == -value
    ensures value >= 0 ==> ValueOf(DecimalText(value)) == value
  {
    if value < 0 {
      DigitsValue(-value);
      assert DecimalText(value)[1..] == Digits(-value);
    } else {
      DigitsValue(value);
      assert DecimalText(value) == Digits(value);
    }
  }

  /** `AppendInt(sb, value)`, as written. */
  method AppendInt(sb: StringBuilder, value: int)
    requires IsInt32(value)
    modifies sb
    ensures sb.Text == old(sb.Text) + IntText(value)
    decreases if value > 0 then value else 0
  {
    var ch := (48 + TruncRem(value, 10)) as char;
    var rest := TruncDiv(value, 10);
    if rest > 0 {
      AppendInt(sb, rest);
    }
    sb.Append(ch);
  }

  /** `AppendNumber(sb, value)` for an `int`, as written. */
  method AppendNumber(sb: StringBuilder, value: int) returns (result: StringBuilder)
    requires IsInt32(value)
    modifies sb
    ensures result == sb
    ensures sb.Text == old(sb.Text) + NumberText(value)
  {
    var v := value;
    if v < 0 {
      sb.Append('-');
      v := Negate32(v);
    }
    AppendInt(sb, v);
    result := sb;
  }

  /** Appends the numeral of `n`, recursing on the leading digits first as
      `AppendInt` does. */
  method AppendDigits(sb: StringBuilder, n: nat)
    modifies sb
    ensures sb.Text == old(sb.Text) + Digits(n)
  {
    if n >= 10 {
      AppendDigits(sb, n / 10);
    }
    sb.Append(DigitChar(n % 10));
  }

  /** `AppendNumber` with the magnitude taken without overflow, so that
      `int.MinValue` is formatted too. */
  method AppendNumberFixed(sb: StringBuilder, value: int) returns (result: StringBuilder)
    modifies sb
    ensures result == sb
    ensures sb.Text == old(sb.Text) + DecimalText(value)
  {
    if value < 0 {
      sb.Append('-');
      AppendDigits(sb, -value);
    } else {
      AppendDigits(sb, value);
    }
    result := sb;
  }

  /** The last values the performance graph keeps: `updateTime` is added,
      then the oldest value is dropped if there are more than
      `valuesToGraph + 1`. */
  function Window(values: seq<int>, updateTime: int, valuesToGraph: int): (kept: seq<int>)
    ensures valuesToGraph >= 0 ==> kept != [] && kept[|kept| - 1] == updateTime
    ensures |values| <= valuesToGraph + 1 ==> |kept| <= valuesToGraph + 1
    ensures |kept| == |values| + 1 || |kept| == |values|
    ensures kept == (values + [updateTime])[|values| + 1 - |kept|..]
  {
    var added := values + [updateTime];
    if |added| > valuesToGraph + 1 then
      added[1..]
    else added
  }

  /** Once within the bound, the graph holds exactly the last
      `valuesToGraph + 1` values after enough updates. */
  lemma {:induction false} WindowFull(values: seq<int>, updateTime: int, valuesToGraph: int)
    requires 0 <= valuesToGraph && |values| == valuesToGraph + 1
    ensures Window(values, updateTime, valuesToGraph) == values[1..] + [updateTime]
  {
    assert (values + [updateTime])[1..] == values[1..] + [updateTime];
  }

  /** The part of `DebugViewBase` the core keeps: its flags and the
      performance graph. `TimeSpan`s are tick counts. */
  class DebugView {
    var Flags: bv32
    var ValuesToGraph: int
    var GraphValues: seq<int>
    var UpdatePerformanceGraphCalled: bool

    /** `new DebugView(world)`: the default layers are shapes, controllers
        and joints; the graph keeps 500 values and is empty. */
    constructor()
      ensures Flags == Shape | Controllers | Joint
      ensures ValuesToGraph == 500 && GraphValues == [] && !UpdatePerformanceGraphCalled
    {
      Flags := 0;
      ValuesToGraph := 500;
      GraphValues := [];
      UpdatePerformanceGraphCalled := false;
      new;
      AppendFlags(Shape);
      AppendFlags(Controllers);
      AppendFlags(Joint);
    }

    /** `AppendFlags(flags)`. */
    method AppendFlags(flags: bv32)
      modifies this`Flags
      ensures Flags == old(Flags) | flags
      ensures forall k: bv5 :: HasBit(Flags, k) == (HasBit(old(Flags), k) || HasBit(flags, k))
    {
      Flags := Flags | flags;
      forall k: bv5
        ensures HasBit(Flags, k) == (HasBit(old(Flags), k) || HasBit(flags, k))
      {
        UnionBits(old(Flags), flags, k);
      }
    }

    /** `RemoveFlags(flags)`. */
    method RemoveFlags(flags: bv32)
      modifies this`Flags
      ensures Flags == Without(old(Flags), flags)
      ensures forall k: bv5 :: HasBit(Flags, k) == (HasBit(old(Flags), k) && !HasBit(flags, k))
    {
      Flags := Without(Flags, flags);
      forall k: bv5
        ensures HasBit(Flags, k) == (HasBit(old(Flags), k) && !HasBit(flags, k))
      {
        RemoveBits(old(Flags), flags, k);
      }
    }

    /** `UpdatePerformanceGraph(updateTime)`. */
    method UpdatePerformanceGraph(updateTime: int)
      modifies this`GraphValues, this`UpdatePerformanceGraphCalled
      ensures GraphValues == Window(old(GraphValues), updateTime, ValuesToGraph)
      ensures UpdatePerformanceGraphCalled
    {
      GraphValues := GraphValues + [updateTime];
      if |GraphValues| > ValuesToGraph + 1 {
        GraphValues := GraphValues[1..];
      }
      UpdatePerformanceGraphCalled := true;
    }
  }
}

/** `DebugViewFlags` (lette/Source/Lib/Physics/DebugView.cs): a `[Flags]`
    enum over a C# `int`, one bit per debug layer. */
module DebugFlags {
  /** `DebugViewFlags`: one bit per debug layer. */
  const Shape: bv32 := 1 << 0
  const Joint: bv32 := 1 << 1
  const AABB: bv32 := 1 << 2
  const CenterOfMass: bv32 := 1 << 4
  const DebugPanel: bv32 := 1 << 5
  const ContactPoints: bv32 := 1 << 6
  const ContactNormals: bv32 := 1 << 7
  const PolygonPoints: bv32 := 1 << 8
  const PerformanceGraph: bv32 := 1 << 9
  const Controllers: bv32 := 1 << 10

  /** The flag word with only bit `k` set. */
  function Bit(k: bv5): bv32 { 1 << k }

  /** Bit `k` of the flag word `f` is set. */
  predicate HasBit(f: bv32, k: bv5) { f & Bit(k) != 0 }

  /** `f & ~flags`. */
  function Without(f: bv32, flags: bv32): bv32 { f & !flags }

  /** `Flags |= flags` sets exactly the bits of `flags`. */
  lemma UnionBits(f: bv32, flags: bv32, k: bv5)
    ensures HasBit(f | flags, k) == (HasBit(f, k) || HasBit(flags, k))
  {
    if HasBit(f, k) {
      UnionKeepsBit(f, flags, k);
    } else {
      UnionAddsBit(f, flags, k);
    }
  }

  lemma UnionKeepsBit(f: bv32, flags: bv32, k: bv5)
    requires HasBit(f, k)
    ensures HasBit(f | flags, k)
  {
  }

  lemma UnionAddsBit(f: bv32, flags: bv32, k: bv5)
    requires !HasBit(f, k)
    ensures HasBit(f | flags, k) == HasBit(flags, k)
  {
  }

  /** `Flags &= ~flags` clears exactly the bits of `flags`. */
  lemma RemoveBits(f: bv32, flags: bv32, k: bv5)
    ensures HasBit(Without(f, flags), k) == (HasBit(f, k) && !HasBit(flags, k))
  {
    if HasBit(flags, k) {
      RemoveClearsBit(f, flags, k);
    } else {
      RemoveKeepsBit(f, flags, k);
    }
  }

  lemma RemoveClearsBit(f: bv32, flags: bv32, k: bv5)
    requires HasBit(flags, k)
    ensures !HasBit(f & !flags, k)
  {
  }

  lemma RemoveKeepsBit(f: bv32, flags: bv32, k: bv5)
    requires !HasBit(flags, k)
    ensures HasBit(f & !flags, k) == HasBit(f, k)
  {
  }
}
