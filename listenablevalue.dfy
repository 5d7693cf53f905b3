/** `ListenableValue<T>` (lette/Source/Editor/ListenableValue.cs): a value
    cell that raises `OnChange` when it is assigned a different value.
    `Fired` records the values `OnChange` was raised with. */
module Listenable {

  class ListenableValue<T(==)> {
    var value: T
    var Fired: seq<T>

    /** The last value announced is the value held. */
    ghost predicate Valid()
      reads this
    {
      Fired != [] ==> Fired[|Fired| - 1] == value
    }

    /** A new cell holds `default(T)` and has fired nothing. */
    constructor(defaultValue: T)
      ensures value == defaultValue && Fired == []
      ensures Valid()
    {
      value := defaultValue;
      Fired := [];
    }

    /** The getter, which the implicit conversion to `T` also returns. */
    function Value(): (v: T)
      reads this
      ensures Valid() && Fired != [] ==> v == Fired[|Fired| - 1]
    {
      value
    }

    /** The setter: an equal value is ignored; a different one is stored
        and then announced once. */
    method SetValue(v: T)
      requires Valid()
      modifies this
      ensures Valid()
      ensures Value() == v
      ensures old(value) == v ==> Fired == old(Fired)
      ensures old(value) != v ==> Fired == old(Fired) + [v]
    {
      if value != v {
        value := v;
        Notify();
      }
    }

    /** `Notify()`: raises `OnChange` with the current value. */
    method Notify()
      modifies this`Fired
      ensures Valid()
      ensures Fired == old(Fired) + [value]
    {
      Fired := Fired + [value];
    }
  }

  /** Assigning the same value twice announces it once. */
  method SetTwice<T(==)>(cell: ListenableValue<T>, v: T)
    requires cell.Valid()
    modifies cell
    ensures cell.Value() == v
    ensures cell.Fired == old(cell.Fired) + (if old(cell.value) == v then [] else [v])
  {
    cell.SetValue(v);
    cell.SetValue(v);
  }
}
