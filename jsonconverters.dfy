/** `RectangleConverter` and `Vector2Converter`
    (lette/Source/Core/JsonSerialization): a `Rectangle` is the JSON array of
    its four integers (X, Y, Width, Height) and a `Vector2` the array of its
    two numbers (X, Y); arrays and numbers as in sections 5 and 6 of RFC 8259.

    The `Utf8JsonReader` is a cursor over a sequence of tokens whose current
    token is the one the converter is called on; `Read()` moves to the next
    token and is false when there is none. The `Utf8JsonWriter` is a sequence
    of tokens that the writes append to. Any exception the converters throw
    is an `Err`. */
module JsonConverters {
  import opened Wrappers
  import opened Framework

  /** The JSON tokens the reader can stand on; a number keeps its value. */
  datatype Token =
    | StartObject | EndObject | StartArray | EndArray
    | PropertyName(name: string) | String(text: string)
    | Number(Value: real) | True | False | Null

  /** Where and why a converter throws: a token of the wrong type (or no
      token at all) at `At`, or a number `GetInt32` cannot return. */
  datatype JsonError = UnexpectedToken(At: int) | NotInt32(At: int)

  /** A number `GetInt32` returns: an integer that fits a C# `int`. */
  predicate IsInt32Number(v: real)
  {
    v.Floor as real == v && IsInt32(v.Floor)
  }

  /** The token at `p` read by `GetInt32` after `Read()` moved there. */
  function Int32At(ts: seq<Token>, p: int): (r: Result<int, JsonError>)
    requires 0 <= p
    ensures r.Ok? <==> p < |ts| && ts[p].Number? && IsInt32Number(ts[p].Value)
    ensures r.Ok? ==> r.value as real == ts[p].Value && IsInt32(r.value)
    ensures r.Err? ==> r.error == (if p < |ts| && ts[p].Number? then NotInt32(p) else UnexpectedToken(p))
  {
    if p < |ts| && ts[p].Number? then
      if IsInt32Number(ts[p].Value) then Ok(ts[p].Value.Floor) else Err(NotInt32(p))
    else Err(UnexpectedToken(p))
  }

  /** The token at `p` read by `GetDouble` after `Read()` moved there; the
      `(float)` narrowing is the identity on reals. */
  function NumberAt(ts: seq<Token>, p: int): (r: Result<real, JsonError>)
    requires 0 <= p
    ensures r.Ok? <==> p < |ts| && ts[p].Number?
    ensures r.Ok? ==> r.value == ts[p].Value
    ensures r.Err? ==> r.error == UnexpectedToken(p)
  {
    if p < |ts| && ts[p].Number? then Ok(ts[p].Value) else Err(UnexpectedToken(p))
  }

  /** `RectangleConverter.Read` from the token at `p`: `StartArray`, four
      numbers that `GetInt32` accepts, each got by one more `Read()`, and
      `EndArray`; the first token that breaks this is the error. */
  function ParseRectangle(ts: seq<Token>, p: int): (r: Result<Rectangle, JsonError>)
    requires 0 <= p < |ts|
    ensures r.Ok? <==>
      && ts[p] == StartArray && p + 5 < |ts| && ts[p + 5] == EndArray
      && forall k :: p + 1 <= k <= p + 4 ==> ts[k].Number? && IsInt32Number(ts[k].Value)
    ensures r.Ok? ==> r == Ok(Rectangle(ts[p + 1].Value.Floor, ts[p + 2].Value.Floor, ts[p + 3].Value.Floor, ts[p + 4].Value.Floor))
  {
    if ts[p] != StartArray then Err(UnexpectedToken(p))
    else match (Int32At(ts, p + 1), Int32At(ts, p + 2), Int32At(ts, p + 3), Int32At(ts, p + 4))
      case (Err(e), _, _, _) => Err(e)
      case (Ok(_), Err(e), _, _) => Err(e)
      case (Ok(_), Ok(_), Err(e), _) => Err(e)
      case (Ok(_), Ok(_), Ok(_), Err(e)) => Err(e)
      case (Ok(x), Ok(y), Ok(w), Ok(h)) =>
        if p + 5 < |ts| && ts[p + 5] == EndArray then Ok(Rectangle(x, y, w, h)) else Err(UnexpectedToken(p + 5))
  }

  /** `Vector2Converter.Read` from the token at `p`: `StartArray`, two
      numbers and `EndArray`. */
  function ParseVector2(ts: seq<Token>, p: int): (r: Result<Vector2, JsonError>)
    requires 0 <= p < |ts|
    ensures r.Ok? <==>
      ts[p] == StartArray && p + 3 < |ts| && ts[p + 1].Number? && ts[p + 2].Number? && ts[p + 3] == EndArray
    ensures r.Ok? ==> r == Ok(Vector2(ts[p + 1].Value, ts[p + 2].Value))
    ensures r.Err? ==> r.error.UnexpectedToken?
  {
    if ts[p] != StartArray then Err(UnexpectedToken(p))
    else match (NumberAt(ts, p + 1), NumberAt(ts, p + 2))
      case (Err(e), _) => Err(e)
      case (Ok(_), Err(e)) => Err(e)
      case (Ok(x), Ok(y)) =>
        if p + 3 < |ts| && ts[p + 3] == EndArray then Ok(Vector2(x, y)) else Err(UnexpectedToken(p + 3))
  }

  /** The tokens `RectangleConverter.Write` emits. */
  function RectangleTokens(r: Rectangle): seq<Token>
  {
    [StartArray, Number(r.X as real), Number(r.Y as real), Number(r.Width as real), Number(r.Height as real), EndArray]
  }

  /** The tokens `Vector2Converter.Write` emits. */
  function Vector2Tokens(v: Vector2): seq<Token>
  {
    [StartArray, Number(v.X), Number(v.Y), EndArray]
  }

  /** Reading back what `Write` put anywhere in a token stream gives the
      rectangle, for every rectangle a C# `Rectangle` can hold. */
  lemma RectangleRoundTrip(before: seq<Token>, r: Rectangle, after: seq<Token>)
    requires IsInt32Rectangle(r)
    ensures ParseRectangle(before + RectangleTokens(r) + after, |before|) == Ok(r)
  {
    var ts := before + RectangleTokens(r) + after;
    var p := |before|;
    assert ts[p..p + 6] == RectangleTokens(r);
  }

  /** Reading back what `Write` put anywhere in a token stream gives the
      vector. */
  lemma Vector2RoundTrip(before: seq<Token>, v: Vector2, after: seq<Token>)
    ensures ParseVector2(before + Vector2Tokens(v) + after, |before|) == Ok(v)
  {
    var ts := before + Vector2Tokens(v) + after;
    var p := |before|;
    assert ts[p..p + 4] == Vector2Tokens(v);
  }

  /** Writing what was read gives back the tokens that were read. */
  lemma RectangleTokensOfParse(ts: seq<Token>, p: int)
    requires 0 <= p < |ts| && ParseRectangle(ts, p).Ok?
    ensures RectangleTokens(ParseRectangle(ts, p).value) == ts[p..p + 6]
    ensures IsInt32Rectangle(ParseRectangle(ts, p).value)
  {
    var r := ParseRectangle(ts, p).value;
    forall k | p + 1 <= k <= p + 4
      ensures ts[k] == Number(ts[k].Value.Floor as real)
    {
    }
  }

  /** A `Utf8JsonReader` standing on the token `Tokens[Pos]`. */
  class Reader {
    const Tokens: seq<Token>
    var Pos: int

    ghost predicate Valid()
      reads this
    {
      0 <= Pos < |Tokens|
    }

    constructor(tokens: seq<Token>, pos: int)
      requires 0 <= pos < |tokens|
      ensures Tokens == tokens && Pos == pos && Valid()
    {
      Tokens := tokens;
      Pos := pos;
    }

    /** `reader.TokenType`, here the whole token. */
    function Current(): (t: Token)
      reads this
      requires Valid()
      ensures t in Tokens
    {
      Tokens[Pos]
    }

    /** `reader.Read()`: moves to the next token if there is one. */
    method Read() returns (more: bool)
      requires Valid()
      modifies this
      ensures Valid()
      ensures more <==> old(Pos) + 1 < |Tokens|
      ensures Pos == if more then old(Pos) + 1 else old(Pos)
    {
      more := Pos + 1 < |Tokens|;
      if more {
        Pos := Pos + 1;
      }
    }
  }

  /** A `Utf8JsonWriter`: the tokens written so far. */
  class Writer {
    var Tokens: seq<Token>

    constructor()
      ensures Tokens == []
    {
      Tokens := [];
    }

    method WriteStartArray()
      modifies this
      ensures Tokens == old(Tokens) + [StartArray]
    {
      Tokens := Tokens + [StartArray];
    }

    method WriteEndArray()
      modifies this
      ensures Tokens == old(Tokens) + [EndArray]
    {
      Tokens := Tokens + [EndArray];
    }

    method WriteNumberValue(v: real)
      modifies this
      ensures Tokens == old(Tokens) + [Number(v)]
    {
      Tokens := Tokens + [Number(v)];
    }
  }

  /** One step of `RectangleConverter.Read`: `Read()`, then `GetInt32`
      on a number token. */
  method ReadInt32(reader: Reader) returns (r: Result<int, JsonError>)
    requires reader.Valid()
    modifies reader
    ensures reader.Valid()
    ensures r == Int32At(reader.Tokens, old(reader.Pos) + 1)
    ensures r.Ok? ==> reader.Pos == old(reader.Pos) + 1
  {
    var next := reader.Pos + 1;
    var more := reader.Read();
    if !more || !reader.Current().Number? {
      return Err(UnexpectedToken(next));
    }
    var v := reader.Current().Value;
    if !IsInt32Number(v) {
      return Err(NotInt32(reader.Pos));
    }
    r := Ok(v.Floor);
  }

  /** One step of `Vector2Converter.Read`: `Read()`, then `GetDouble` on a
      number token. */
  method ReadNumber(reader: Reader) returns (r: Result<real, JsonError>)
    requires reader.Valid()
    modifies reader
    ensures reader.Valid()
    ensures r == NumberAt(reader.Tokens, old(reader.Pos) + 1)
    ensures r.Ok? ==> reader.Pos == old(reader.Pos) + 1
  {
    var next := reader.Pos + 1;
    var more := reader.Read();
    if !more || !reader.Current().Number? {
      return Err(UnexpectedToken(next));
    }
    r := Ok(reader.Current().Value);
  }

  /** The final `Read()` of both converters: the array must end here. */
  method ReadEndArray(reader: Reader) returns (ok: bool)
    requires reader.Valid()
    modifies reader
    ensures reader.Valid()
    ensures ok <==> old(reader.Pos) + 1 < |reader.Tokens| && reader.Tokens[old(reader.Pos) + 1] == EndArray
    ensures ok ==> reader.Pos == old(reader.Pos) + 1
  {
    var more := reader.Read();
    ok := more && reader.Current() == EndArray;
  }

  /** `RectangleConverter.Read`: on success the reader is left on the
      `EndArray` five tokens on. */
  method ReadRectangle(reader: Reader) returns (result: Result<Rectangle, JsonError>)
    requires reader.Valid()
    modifies reader
    ensures reader.Valid()
    ensures result == ParseRectangle(reader.Tokens, old(reader.Pos))
    ensures result.Ok? ==> reader.Pos == old(reader.Pos) + 5 && reader.Current() == EndArray
  {
    var start := reader.Pos;
    if reader.Current() != StartArray {
      return Err(UnexpectedToken(start));
    }
    var x := ReadInt32(reader);
    if x.Err? {
      return Err(x.error);
    }
    var y := ReadInt32(reader);
    if y.Err? {
      return Err(y.error);
    }
    var w := ReadInt32(reader);
    if w.Err? {
      return Err(w.error);
    }
    var h := ReadInt32(reader);
    if h.Err? {
      return Err(h.error);
    }
    var ok := ReadEndArray(reader);
    if !ok {
      return Err(UnexpectedToken(start + 5));
    }
    result := Ok(Rectangle(x.value, y.value, w.value, h.value));
  }

  /** `RectangleConverter.Write`. */
  method WriteRectangle(writer: Writer, value: Rectangle)
    modifies writer
    ensures writer.Tokens == old(writer.Tokens) + RectangleTokens(value)
  {
    writer.WriteStartArray();
    writer.WriteNumberValue(value.X as real);
    writer.WriteNumberValue(value.Y as real);
    writer.WriteNumberValue(value.Width as real);
    writer.WriteNumberValue(value.Height as real);
    writer.WriteEndArray();
  }

  /** `Vector2Converter.Read`: on success the reader is left on the
      `EndArray` three tokens on. */
  method ReadVector2(reader: Reader) returns (result: Result<Vector2, JsonError>)
    requires reader.Valid()
    modifies reader
    ensures reader.Valid()
    ensures result == ParseVector2(reader.Tokens, old(reader.Pos))
    ensures result.Ok? ==> reader.Pos == old(reader.Pos) + 3 && reader.Current() == EndArray
  {
    var start := reader.Pos;
    if reader.Current() != StartArray {
      return Err(UnexpectedToken(start));
    }
    var x := ReadNumber(reader);
    if x.Err? {
      return Err(x.error);
    }
    var y := ReadNumber(reader);
    if y.Err? {
      return Err(y.error);
    }
    var ok := ReadEndArray(reader);
    if !ok {
      return Err(UnexpectedToken(start + 3));
    }
    result := Ok(Vector2(x.value, y.value));
  }

  /** `Vector2Converter.Write`. */
  method WriteVector2(writer: Writer, value: Vector2)
    modifies writer
    ensures writer.Tokens == old(writer.Tokens) + Vector2Tokens(value)
  {
    writer.WriteStartArray();
    writer.WriteNumberValue(value.X);
    writer.WriteNumberValue(value.Y);
    writer.WriteEndArray();
  }

  /** A rectangle written by `Write` is read back by `Read` from a reader
      standing on the array's start. */
  method RectangleWriteThenRead(value: Rectangle) returns (read: Result<Rectangle, JsonError>)
    requires IsInt32Rectangle(value)
    ensures read == Ok(value)
  {
    var writer := new Writer();
    WriteRectangle(writer, value);
    var reader := new Reader(writer.Tokens, 0);
    RectangleRoundTrip([], value, []);
    assert writer.Tokens == [] + RectangleTokens(value) + [];
    read := ReadRectangle(reader);
  }

  /** A vector written by `Write` is read back by `Read`. */
  method Vector2WriteThenRead(value: Vector2) returns (read: Result<Vector2, JsonError>)
    ensures read == Ok(value)
  {
    var writer := new Writer();
    WriteVector2(writer, value);
    var reader := new Reader(writer.Tokens, 0);
    Vector2RoundTrip([], value, []);
    assert writer.Tokens == [] + Vector2Tokens(value) + [];
    read := ReadVector2(reader);
  }
}
