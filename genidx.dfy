/** Generational handles (lette/Source/Core/GenIdx.cs): an allocator that
    hands out `(Index, Generation)` pairs over a fixed-capacity entry array,
    and `GenArr<T>`, a slot array that only answers for live handles. */
module Generational {
  import opened Wrappers

  /** `GenIdx`: the index of a slot and the generation it was issued with. */
  datatype GenIdx = GenIdx(Index: int, Generation: int)

  /** `IsNull`: generation 0, the generation of `default(GenIdx)`. */
  predicate IsNull(h: GenIdx) { h.Generation == 0 }

  /** `AllocatorEntry`; `default` is a dead entry of generation 0. */
  datatype AllocatorEntry = AllocatorEntry(Alive: bool, Generation: int)

  const DeadEntry := AllocatorEntry(false, 0)

  /** `Alive(h)` on a snapshot of the entries. */
  predicate AliveIn(entries: seq<AllocatorEntry>, h: GenIdx)
    requires 0 <= h.Index < |entries|
  {
    entries[h.Index].Alive && entries[h.Index].Generation == h.Generation
  }

  /** Writing a live entry of generation `g` at `i` makes exactly the handle
      `(i, g)` alive at `i` and leaves every other slot as it was. */
  lemma InstallEffect(entries: seq<AllocatorEntry>, i: int, g: int, h: GenIdx)
    requires 0 <= i < |entries| && 0 <= h.Index < |entries|
    ensures AliveIn(entries[i := AllocatorEntry(true, g)], h) <==>
      if h.Index == i then h.Generation == g else AliveIn(entries, h)
  {
  }

  /** `GenIdxAllocator`. `Free` is the stack of released indices, its top
      last. `Issued` (ghost) records the generations handed out so far. */
  class GenIdxAllocator {
    var Entries: array<AllocatorEntry>
    var Free: seq<int>
    var NextGeneration: int
    var Count: int
    ghost var Issued: seq<int>

    /** What every operation keeps: `Count` stays 0 (nothing increments it),
        released indices address slots, every stored generation and every
        issued one is below `NextGeneration`, issued generations increase,
        and no live entry has generation 0. */
    ghost predicate Valid()
      reads this, Entries
    {
      && NextGeneration == |Issued| + 1
      && Count == 0
      && (forall f :: f in Free ==> 0 <= f < Entries.Length)
      && (forall i :: 0 <= i < Entries.Length ==>
            Entries[i].Generation < NextGeneration && (Entries[i].Alive ==> Entries[i].Generation >= 1))
      && (forall j :: 0 <= j < |Issued| ==> 1 <= Issued[j] < NextGeneration)
      && (forall j, k :: 0 <= j < k < |Issued| ==> Issued[j] < Issued[k])
    }

    /** `new GenIdxAllocator(size)`: `size` dead entries, generation counter
        at 1. A negative size throws in the source. */
    constructor(size: int)
      requires size >= 0
      ensures Entries.Length == size && fresh(Entries)
      ensures forall i :: 0 <= i < size ==> Entries[i] == DeadEntry
      ensures Free == [] && NextGeneration == 1 && Count == 0 && Issued == []
      ensures Valid()
    {
      Entries := new AllocatorEntry[size](_ => DeadEntry);
      Free := [];
      NextGeneration := 1;
      Count := 0;
      Issued := [];
    }

    /** `Alive(h)`: the slot is live and holds `h`'s generation. Indexing
        the entries throws for an index out of range. */
    function Alive(h: GenIdx): (r: bool)
      reads this, Entries
      requires 0 <= h.Index < Entries.Length
      ensures r && Valid() ==> !IsNull(h) && h.Generation < NextGeneration
    {
      AliveIn(Entries[..], h)
    }

    /** `Alloc()`: the top of `Free` if there is one, else index `Count`
        (always 0), gets a live entry with the next generation. Writing
        outside the array throws, hence the second precondition. */
    method Alloc() returns (h: GenIdx)
      requires Valid()
      requires Free != [] || Count < Entries.Length
      modifies this, Entries
      ensures Valid() && Entries == old(Entries) && Count == old(Count)
      ensures h.Index == if old(Free) == [] then old(Count) else old(Free)[|old(Free)| - 1]
      ensures Free == if old(Free) == [] then [] else old(Free)[..|old(Free)| - 1]
      ensures h.Generation == old(NextGeneration) && NextGeneration == h.Generation + 1
      ensures Issued == old(Issued) + [h.Generation]
      ensures forall j :: 0 <= j < |old(Issued)| ==> old(Issued)[j] < h.Generation
      ensures old(Issued) == [] ==> h.Generation == 1
      ensures old(Free) == [] ==> h.Index == 0
      ensures 0 <= h.Index < Entries.Length
      ensures Entries[..] == old(Entries[..])[h.Index := AllocatorEntry(true, h.Generation)]
      ensures Alive(h) && !IsNull(h)
      ensures forall g :: g != h.Generation ==> !Alive(GenIdx(h.Index, g))
    {
      var index;
      if Free != [] {
        var top, rest := Free[|Free| - 1], Free[..|Free| - 1];
        assert Free == rest + [top];
        forall f | f in rest
          ensures 0 <= f < Entries.Length
        {
          assert f in Free;
        }
        assert top in Free;
        index := top;
        Free := rest;
      } else {
        index := Count;
      }
      var generation := NextGeneration;
      NextGeneration := NextGeneration + 1;
      Entries[index] := AllocatorEntry(true, generation);
      Issued := Issued + [generation];
      h := GenIdx(index, generation);
    }

    /** `Dealloc(h)`: a dead slot or a generation mismatch returns false and
        changes nothing. Otherwise the index is pushed onto `Free` and true
        is returned; the entry is marked dead only on a local copy, so the
        entries stay as they were and `h` stays alive. */
    method Dealloc(h: GenIdx) returns (ok: bool)
      requires Valid() && 0 <= h.Index < Entries.Length
      modifies this`Free
      ensures Valid()
      ensures ok == Alive(h)
      ensures Free == if ok then old(Free) + [h.Index] else old(Free)
    {
      var entry := Entries[h.Index];
      if entry.Generation != h.Generation || !entry.Alive {
        return false;
      }
      Free := Free + [h.Index];
      entry := entry.(Alive := false);
      return true;
    }
  }

  /** A live handle can be released twice: both calls succeed and its index
      is on the free stack twice. */
  method DeallocTwice(a: GenIdxAllocator, h: GenIdx) returns (first: bool, second: bool)
    requires a.Valid() && 0 <= h.Index < a.Entries.Length && a.Alive(h)
    modifies a`Free
    ensures first && second
    ensures a.Free == old(a.Free) + [h.Index, h.Index]
  {
    first := a.Dealloc(h);
    second := a.Dealloc(h);
  }

  /** A null handle is never alive: no entry is ever live with generation 0. */
  lemma NullNeverAlive(a: GenIdxAllocator, h: GenIdx)
    requires a.Valid() && 0 <= h.Index < a.Entries.Length && IsNull(h)
    ensures !a.Alive(h)
  {
  }

  /** `ArrEntry<T>`; `Value` is `None` for `null`. */
  datatype ArrEntry<T> = ArrEntry(Value: Option<T>, Generation: int)

  /** `GenArr<T>`: one slot per allocator entry. */
  class GenArr<T> {
    var Backing: array<ArrEntry<T>>
    var Allocator: GenIdxAllocator

    /** `new GenArr(allocator)`: as many empty slots as the allocator has
        entries at this moment. */
    constructor(allocator: GenIdxAllocator)
      ensures Allocator == allocator && fresh(Backing)
      ensures Backing.Length == allocator.Entries.Length
      ensures forall i :: 0 <= i < Backing.Length ==> Backing[i] == ArrEntry(None, 0)
    {
      Backing := new ArrEntry<T>[allocator.Entries.Length](_ => ArrEntry(None, 0));
      Allocator := allocator;
    }

    /** The slots still match the allocator's entries one to one. */
    ghost predicate Sized()
      reads this, Allocator
    {
      Backing.Length == Allocator.Entries.Length
    }

    /** The getter: the slot's value for a live handle, `null` otherwise. */
    function Get(h: GenIdx): (v: Option<T>)
      reads this, Allocator, Allocator.Entries, Backing
      requires Sized() && 0 <= h.Index < Backing.Length
      ensures v.Some? ==> Allocator.Alive(h)
    {
      if Allocator.Alive(h) then Backing[h.Index].Value else None
    }

    /** The setter: for a live handle, the slot becomes `{value,
        h.Generation}`; otherwise nothing is written. */
    method Set(h: GenIdx, value: Option<T>)
      requires Sized() && 0 <= h.Index < Backing.Length
      modifies Backing
      ensures Backing[..] == if Allocator.Alive(h)
        then old(Backing[..])[h.Index := ArrEntry(value, h.Generation)]
        else old(Backing[..])
      ensures Allocator.Alive(h) ==> Get(h) == value
    {
      if Allocator.Alive(h) {
        Backing[h.Index] := ArrEntry(value, h.Generation);
      }
    }

    /** `Entries`: the non-null values of the slots whose stored generation
        is alive in the allocator, in index order. */
    method Entries() returns (values: seq<T>)
      requires Sized()
      ensures values == LiveValues(Backing[..], Allocator.Entries[..], Backing.Length)
    {
      values := [];
      var i := 0;
      while i < Backing.Length
        invariant 0 <= i <= Backing.Length
        invariant values == LiveValues(Backing[..], Allocator.Entries[..], i)
      {
        var entry := Backing[i];
        var idx := GenIdx(i, entry.Generation);
        if Allocator.Alive(idx) && entry.Value.Some? {
          values := values + [entry.Value.value];
        }
        i := i + 1;
      }
    }
  }

  /** Slot `i` is yielded by `Entries`. */
  predicate Live<T>(backing: seq<ArrEntry<T>>, entries: seq<AllocatorEntry>, i: int)
    requires 0 <= i < |backing| <= |entries|
  {
    AliveIn(entries, GenIdx(i, backing[i].Generation)) && backing[i].Value.Some?
  }

  /** The values `Entries` yields from the first `n` slots. */
  function LiveValues<T>(backing: seq<ArrEntry<T>>, entries: seq<AllocatorEntry>, n: int): seq<T>
    requires 0 <= n <= |backing| <= |entries|
  {
    if n == 0 then [] else
      LiveValues(backing, entries, n - 1) + (if Live(backing, entries, n - 1) then [backing[n - 1].Value.value] else [])
  }

  /** The live slots among the first `n`, in increasing order. */
  function LiveSlots<T>(backing: seq<ArrEntry<T>>, entries: seq<AllocatorEntry>, n: int): (slots: seq<int>)
    requires 0 <= n <= |backing| <= |entries|
    ensures forall j :: 0 <= j < |slots| ==> 0 <= slots[j] < n
    ensures forall j, k :: 0 <= j < k < |slots| ==> slots[j] < slots[k]
    ensures forall i :: 0 <= i < n ==> (i in slots <==> Live(backing, entries, i))
  {
    if n == 0 then [] else
      LiveSlots(backing, entries, n - 1) + (if Live(backing, entries, n - 1) then [n - 1] else [])
  }

  /** `Entries` yields, slot by slot in index order, exactly the values of
      the live slots. */
  lemma {:induction false} LiveValuesAreLiveSlots<T>(backing: seq<ArrEntry<T>>, entries: seq<AllocatorEntry>, n: int)
    requires 0 <= n <= |backing| <= |entries|
    ensures |LiveValues(backing, entries, n)| == |LiveSlots(backing, entries, n)|
    ensures forall j :: 0 <= j < |LiveSlots(backing, entries, n)| ==>
      Some(LiveValues(backing, entries, n)[j]) == backing[LiveSlots(backing, entries, n)[j]].Value
  {
    if n > 0 {
      LiveValuesAreLiveSlots(backing, entries, n - 1);
    }
  }
}
