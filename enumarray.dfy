/** `EnumArray<K, V>` (lette/Source/Core/EnumArray.cs): one value slot per
    member of the enum `K`, addressed by the member's ordinal. Keys are
    modelled by their ordinals `0 .. n - 1`. */
module EnumArrays {

  class EnumArray<V> {
    var Values: array<V>

    /** `New()`: one `default(V)` slot per enum member. */
    constructor New(memberCount: nat, defaultValue: V)
      ensures fresh(Values) && Values.Length == memberCount
      ensures forall k :: 0 <= k < memberCount ==> Values[k] == defaultValue
    {
      Values := new V[memberCount](_ => defaultValue);
    }

    /** `Keys`: the ordinals in increasing order. */
    function Keys(): (keys: seq<int>)
      reads this
      ensures |keys| == Values.Length
      ensures forall i :: 0 <= i < |keys| ==> keys[i] == i
    {
      seq(Values.Length, i => i)
    }

    /** `Entries`: each ordinal with its slot's value, in order. */
    function Entries(): (entries: seq<(int, V)>)
      reads this, Values
      ensures |entries| == |Keys()|
      ensures forall i :: 0 <= i < |entries| ==> entries[i] == (Keys()[i], Values[i])
    {
      var values := Values[..];
      seq(|values|, i requires 0 <= i < |values| => (i, values[i]))
    }

    /** The getter. */
    function Get(k: int): (v: V)
      reads this, Values
      requires 0 <= k < Values.Length
      ensures Entries()[k] == (k, v)
    {
      Values[k]
    }

    /** The setter writes slot `k` in place and no other. */
    method Set(k: int, value: V)
      requires 0 <= k < Values.Length
      modifies Values
      ensures Values[..] == old(Values[..])[k := value]
      ensures Get(k) == value
      ensures forall j :: 0 <= j < Values.Length && j != k ==> Get(j) == old(Get(j))
    {
      Values[k] := value;
    }
  }
}
