/** The helpers of lette/Source/Core/Extensions.cs that the core uses. */
module Extensions {
  import opened Framework

  /** `(int)Math.Floor(r)`: the greatest integer not above `r`. */
  function Floor(r: real): (n: int)
    ensures n as real <= r < n as real + 1.0
  {
    r.Floor
  }

  /** `(int)Math.Ceiling(r)`: the least integer not below `r`. */
  function Ceiling(r: real): (n: int)
    ensures r <= n as real < r + 1.0
  {
    -((-r).Floor)
  }

  /** The floor of `r` is the integer `n` with `n <= r < n + 1`. */
  lemma FloorIs(r: real, n: int)
    requires n as real <= r < n as real + 1.0
    ensures Floor(r) == n
  {
  }

  /** The ceiling of `r` is the integer `n` with `n - 1 < r <= n`. */
  lemma CeilingIs(r: real, n: int)
    requires n as real - 1.0 < r <= n as real
    ensures Ceiling(r) == n
  {
  }

  /** `FFloor`: componentwise floor of a vector. */
  function FFloor(value: Vector2): (p: Point)
    ensures p.X as real <= value.X < p.X as real + 1.0
    ensures p.Y as real <= value.Y < p.Y as real + 1.0
  {
    Point(Floor(value.X), Floor(value.Y))
  }

  /** `FCeil`: componentwise ceiling of a vector. */
  function FCeil(value: Vector2): (p: Point)
    ensures value.X <= p.X as real < value.X + 1.0
    ensures value.Y <= p.Y as real < value.Y + 1.0
  {
    Point(Ceiling(value.X), Ceiling(value.Y))
  }

  /** The floored point is below the vector, the ceiled one above it, each
      less than one away; the two agree exactly on integral components. */
  lemma FloorCeilBracket(v: Vector2)
    ensures FFloor(v).X as real <= v.X <= FCeil(v).X as real
    ensures FFloor(v).Y as real <= v.Y <= FCeil(v).Y as real
    ensures v.X - 1.0 < FFloor(v).X as real && FCeil(v).X as real < v.X + 1.0
    ensures v.Y - 1.0 < FFloor(v).Y as real && FCeil(v).Y as real < v.Y + 1.0
    ensures FCeil(v).X - FFloor(v).X == (if v.X == FFloor(v).X as real then 0 else 1)
    ensures FCeil(v).Y - FFloor(v).Y == (if v.Y == FFloor(v).Y as real then 0 else 1)
  {
  }

  /** Flooring and ceiling an integral vector gives its own coordinates back. */
  lemma FloorCeilOfPoint(p: Point)
    ensures FFloor(ToVector2(p)) == p && FCeil(ToVector2(p)) == p
  {
  }

  /** `GetOrCreate`: the value stored under `key`, or else `created` (the
      source's `new V()`), which is then added under `key`. The dictionary is
      passed and returned as a value. */
  method GetOrCreate<K, V>(dict: map<K, V>, key: K, created: V) returns (dict': map<K, V>, val: V)
    ensures key in dict' && dict'[key] == val
    ensures key in dict ==> dict' == dict && val == dict[key]
    ensures key !in dict ==> dict'.Keys == dict.Keys + {key} && val == created
    ensures forall k :: k in dict ==> k in dict' && dict'[k] == dict[k]
  {
    if key in dict {
      dict', val := dict, dict[key];
    } else {
      val := created;
      dict' := dict[key := val];
    }
  }

  /** `TakeUntil`: the elements of `source` up to and including the first one
      that satisfies `stop` (the source's `predicate`), or all of them when none does. */
  function TakeUntil<T>(source: seq<T>, stop: T -> bool): (r: seq<T>)
    ensures r <= source
    ensures forall i :: 0 <= i < |r| - 1 ==> !stop(r[i])
    ensures r == source || (r != [] && stop(r[|r| - 1]))
  {
    if source == [] then []
    else if stop(source[0]) then [source[0]]
    else [source[0]] + TakeUntil(source[1..], stop)
  }

  /** The same result, by the index of the first element that satisfies the
      predicate. */
  lemma {:induction false} TakeUntilFirstMatch<T>(source: seq<T>, stop: T -> bool, k: nat)
    requires k < |source| && stop(source[k])
    requires forall i :: 0 <= i < k ==> !stop(source[i])
    ensures TakeUntil(source, stop) == source[..k + 1]
  {
    if k > 0 {
      TakeUntilFirstMatch(source[1..], stop, k - 1);
      assert source[1..][..k] == source[1..k + 1];
      assert source[..k + 1] == [source[0]] + source[1..k + 1];
    }
  }

  /** When no element satisfies the predicate, everything is taken. */
  lemma {:induction false} TakeUntilNoMatch<T>(source: seq<T>, stop: T -> bool)
    requires forall i :: 0 <= i < |source| ==> !stop(source[i])
    ensures TakeUntil(source, stop) == source
  {
    if source != [] {
      TakeUntilNoMatch(source[1..], stop);
    }
  }
}
