/** The older allocator of lette/Source/Core/GenerationalIndex.cs. It
    differs from `GenIdxAllocator` in that generations start at 0, so the
    first handle it issues has the generation of `default`. */
module GenerationalLegacy {

  /** `GenerationalIndex`. */
  datatype GenerationalIndex = GenerationalIndex(Index: int, Generation: int)

  /** `AllocatorEntry`; `default` is a dead entry of generation 0. */
  datatype AllocatorEntry = AllocatorEntry(Alive: bool, Generation: int)

  const DeadEntry := AllocatorEntry(false, 0)

  /** `GenerationalIndexAllocator`. `Free` is the stack of released
      indices, its top last; `Issued` (ghost) records the generations handed
      out so far. */
  class GenerationalIndexAllocator {
    var Entries: array<AllocatorEntry>
    var Free: seq<int>
    var NextGeneration: int
    var Count: int
    ghost var Issued: seq<int>

    /** What every operation keeps: `Count` stays 0, released indices
        address slots, live entries and issued generations are below
        `NextGeneration`, and issued generations increase from 0. */
    ghost predicate Valid()
      reads this, Entries
    {
      && NextGeneration == |Issued|
      && Count == 0
      && (forall f :: f in Free ==> 0 <= f < Entries.Length)
      && (forall i :: 0 <= i < Entries.Length ==> Entries[i].Alive ==> 0 <= Entries[i].Generation < NextGeneration)
      && (forall j :: 0 <= j < |Issued| ==> 0 <= Issued[j] < NextGeneration)
      && (forall j, k :: 0 <= j < k < |Issued| ==> Issued[j] < Issued[k])
    }

    constructor(size: int)
      requires size >= 0
      ensures Entries.Length == size && fresh(Entries)
      ensures forall i :: 0 <= i < size ==> Entries[i] == DeadEntry
      ensures Free == [] && NextGeneration == 0 && Count == 0 && Issued == []
      ensures Valid()
    {
      Entries := new AllocatorEntry[size](_ => DeadEntry);
      Free := [];
      NextGeneration := 0;
      Count := 0;
      Issued := [];
    }

    /** `Alive(index)`. */
    function Alive(h: GenerationalIndex): (r: bool)
      reads this, Entries
      requires 0 <= h.Index < Entries.Length
      ensures r && Valid() ==> 0 <= h.Generation < NextGeneration
      ensures r ==> forall g :: g != h.Generation ==> Entries[h.Index] != AllocatorEntry(true, g)
    {
      Entries[h.Index].Alive && Entries[h.Index].Generation == h.Generation
    }

    /** `Alloc()`: as in `GenIdxAllocator`, with the first call returning
        generation 0. */
    method Alloc() returns (h: GenerationalIndex)
      requires Valid()
      requires Free != [] || Count < Entries.Length
      modifies this, Entries
      ensures Valid() && Entries == old(Entries) && Count == old(Count)
      ensures h.Index == if old(Free) == [] then old(Count) else old(Free)[|old(Free)| - 1]
      ensures Free == if old(Free) == [] then [] else old(Free)[..|old(Free)| - 1]
      ensures h.Generation == old(NextGeneration) && NextGeneration == h.Generation + 1
      ensures old(Issued) == [] ==> h.Generation == 0
      ensures Issued == old(Issued) + [h.Generation]
      ensures forall j :: 0 <= j < |old(Issued)| ==> old(Issued)[j] < h.Generation
      ensures 0 <= h.Index < Entries.Length
      ensures Entries[..] == old(Entries[..])[h.Index := AllocatorEntry(true, h.Generation)]
      ensures Alive(h)
      ensures forall g :: g != h.Generation ==> !Alive(GenerationalIndex(h.Index, g))
    {
      var index;
      if Free != [] {
        var top, rest := Free[|Free| - 1], Free[..|Free| - 1];
        assert Free == rest + [top];
        forall f | f in rest
          ensures 0 <= f < Entries.Length
        {
          assert f in Free;
        }
        assert top in Free;
        index := top;
        Free := rest;
      } else {
        index := Count;
      }
      var generation := NextGeneration;
      NextGeneration := NextGeneration + 1;
      Entries[index] := AllocatorEntry(true, generation);
      Issued := Issued + [generation];
      h := GenerationalIndex(index, generation);
    }

    /** `Dealloc(index)`: like `GenIdxAllocator.Dealloc`, the entry is
        marked dead only on a local copy. */
    method Dealloc(h: GenerationalIndex) returns (ok: bool)
      requires Valid() && 0 <= h.Index < Entries.Length
      modifies this`Free
      ensures Valid()
      ensures ok == Alive(h)
      ensures Free == if ok then old(Free) + [h.Index] else old(Free)
    {
      var entry := Entries[h.Index];
      if entry.Generation != h.Generation || !entry.Alive {
        return false;
      }
      Free := Free + [h.Index];
      entry := entry.(Alive := false);
      return true;
    }
  }
}
