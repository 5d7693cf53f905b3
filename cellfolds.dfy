/** What the loops of `SpatialMap<T>` (lette/Source/Core/SpatialMap.cs) do
    to the backing dictionary: one `Step` per visited key, folded over the
    keys in visiting order. */
module CellFolds {
  import opened Framework
  import opened SpatialCells

  /** Removing a `List` element: the first element equal to `e`, if any. */
  function RemoveFirst<E(==)>(s: seq<E>, e: E): (r: seq<E>)
    ensures e !in s ==> r == s
  {
    if s == [] then []
    else if s[0] == e then s[1..]
    else [s[0]] + RemoveFirst(s[1..], e)
  }

  /** One occurrence of `e` goes, if there is one, and nothing else. */
  lemma {:induction false} RemoveFirstMultiset<E>(s: seq<E>, e: E)
    ensures multiset(RemoveFirst(s, e)) == multiset(s) - multiset{e}
  {
    if s != [] {
      assert s == [s[0]] + s[1..];
      if s[0] != e {
        RemoveFirstMultiset(s[1..], e);
      }
    }
  }

  /** It is the first occurrence that is removed, and the order of the rest
      is kept. */
  lemma {:induction false} RemoveFirstIsFirst<E>(s: seq<E>, e: E, i: int)
    requires 0 <= i < |s| && s[i] == e
    requires forall j :: 0 <= j < i ==> s[j] != e
    ensures RemoveFirst(s, e) == s[..i] + s[i + 1..]
  {
    if i > 0 {
      var t := s[1..];
      RemoveFirstIsFirst(t, e, i - 1);
      assert s[..i] + s[i + 1..] == [s[0]] + (t[..i - 1] + t[i..]);
    }
  }

  /** `RemoveFirst` applied `n` times. */
  function RemoveTimes<E(==)>(s: seq<E>, e: E, n: nat): (r: seq<E>)
    ensures e !in s ==> r == s
  {
    if n == 0 then s else RemoveFirst(RemoveTimes(s, e, n - 1), e)
  }

  /** `n` copies of `e`. */
  function Repeat<E>(e: E, n: nat): (r: seq<E>)
    ensures |r| == n && forall x :: x in r ==> x == e
  {
    if n == 0 then [] else Repeat(e, n - 1) + [e]
  }

  /** The list under `k`, or an empty one. */
  function ListAt<T>(m: Backing<T>, k: int): seq<SpatialEntry<T>>
  {
    if k in m then m[k] else []
  }

  /** What one loop does at one visited key. `Seed` is `Cells(bounds, true)`
      creating a missing list; `Append(e)` is that followed by `Add(e)` on
      the yielded list (`Insert`, and `GetOrCreate(..).Add(e)` in `Update`);
      `Drop(e)` is `Remove(e)` on the list of an existing key (`Remove`, and
      the first loop of `Update`). */
  datatype CellOp<T> = Seed | Append(entry: SpatialEntry<T>) | Drop(entry: SpatialEntry<T>)

  function Step<T(==)>(m: Backing<T>, k: int, op: CellOp<T>): Backing<T>
  {
    match op
    case Seed => if k in m then m else m[k := []]
    case Append(e) => m[k := ListAt(m, k) + [e]]
    case Drop(e) => if k in m then m[k := RemoveFirst(m[k], e)] else m
  }

  /** The map after visiting `keys` in order. */
  function Apply<T(==)>(m: Backing<T>, keys: seq<int>, op: CellOp<T>): Backing<T>
  {
    if keys == [] then m else Step(Apply(m, keys[..|keys| - 1], op), keys[|keys| - 1], op)
  }

  lemma ApplySnoc<T>(m: Backing<T>, keys: seq<int>, k: int, op: CellOp<T>)
    ensures Apply(m, keys + [k], op) == Step(Apply(m, keys, op), k, op)
  {
    assert (keys + [k])[..|keys|] == keys;
  }

  /** Seeding adds an empty list under every visited key that has none and
      leaves every existing list as it is. */
  lemma {:induction false} SeedContents<T>(m: Backing<T>, keys: seq<int>, k: int)
    ensures k in Apply(m, keys, Seed) <==> k in m || k in keys
    ensures k in m ==> Apply(m, keys, Seed)[k] == m[k]
    ensures k !in m && k in keys ==> Apply(m, keys, Seed)[k] == []
  {
    if keys != [] {
      var prefix := keys[..|keys| - 1];
      assert keys == prefix + [keys[|keys| - 1]];
      SeedContents(m, prefix, k);
    }
  }

  /** Appending creates the lists it needs and deletes none. */
  lemma {:induction false} AppendKeys<T>(m: Backing<T>, keys: seq<int>, e: SpatialEntry<T>, k: int)
    ensures k in Apply(m, keys, Append(e)) <==> k in m || k in keys
  {
    if keys != [] {
      var prefix := keys[..|keys| - 1];
      assert keys == prefix + [keys[|keys| - 1]];
      AppendKeys(m, prefix, e, k);
    }
  }

  /** Appending adds `e` to the list of each visited key once per visit; no
      other list changes. */
  lemma {:induction false} AppendContents<T>(m: Backing<T>, keys: seq<int>, e: SpatialEntry<T>, k: int)
    ensures ListAt(Apply(m, keys, Append(e)), k) == ListAt(m, k) + Repeat(e, Occurrences(keys, k))
  {
    if keys != [] {
      var prefix, last := keys[..|keys| - 1], keys[|keys| - 1];
      AppendContents(m, prefix, e, k);
      AppendStep(m, Apply(m, prefix, Append(e)), last, e, k, Occurrences(prefix, k));
    }
  }

  lemma AppendStep<T>(m: Backing<T>, before: Backing<T>, last: int, e: SpatialEntry<T>, k: int, n: nat)
    requires ListAt(before, k) == ListAt(m, k) + Repeat(e, n)
    ensures ListAt(Step(before, last, Append(e)), k) == ListAt(m, k) + Repeat(e, n + if last == k then 1 else 0)
  {
    if last == k {
      assert Repeat(e, n + 1) == Repeat(e, n) + [e];
    }
  }

  /** Dropping adds and deletes no key. */
  lemma {:induction false} DropKeys<T>(m: Backing<T>, keys: seq<int>, e: SpatialEntry<T>, k: int)
    ensures k in Apply(m, keys, Drop(e)) <==> k in m
  {
    if keys != [] {
      DropKeys(m, keys[..|keys| - 1], e, k);
    }
  }

  /** Dropping removes the first `e` from the list of each visited key once
      per visit; no other list changes. */
  lemma {:induction false} DropContents<T>(m: Backing<T>, keys: seq<int>, e: SpatialEntry<T>, k: int)
    requires k in m
    ensures k in Apply(m, keys, Drop(e))
    ensures Apply(m, keys, Drop(e))[k] == RemoveTimes(m[k], e, Occurrences(keys, k))
  {
    DropKeys(m, keys, e, k);
    if keys != [] {
      var prefix, last := keys[..|keys| - 1], keys[|keys| - 1];
      DropContents(m, prefix, e, k);
      DropKeys(m, prefix, e, k);
      DropStep(m, Apply(m, prefix, Drop(e)), last, e, k, Occurrences(prefix, k));
    }
  }

  lemma DropStep<T>(m: Backing<T>, before: Backing<T>, last: int, e: SpatialEntry<T>, k: int, n: nat)
    requires k in m && k in before && before[k] == RemoveTimes(m[k], e, n)
    ensures k in Step(before, last, Drop(e))
    ensures Step(before, last, Drop(e))[k] == RemoveTimes(m[k], e, n + if last == k then 1 else 0)
  {
  }

  /** Dropping an entry that no list holds changes nothing. */
  lemma DropAbsent<T>(m: Backing<T>, keys: seq<int>, e: SpatialEntry<T>)
    requires forall k :: k in m ==> e !in m[k]
    ensures Apply(m, keys, Drop(e)) == m
  {
    forall k | true
      ensures k in Apply(m, keys, Drop(e)) <==> k in m
      ensures k in m ==> Apply(m, keys, Drop(e))[k] == m[k]
    {
      DropKeys(m, keys, e, k);
      if k in m {
        DropContents(m, keys, e, k);
      }
    }
  }

  /** The map `Cells(bounds, createCells)` leaves behind. */
  function Seeded<T(==)>(m: Backing<T>, keys: seq<int>, createCells: bool): Backing<T>
  {
    if createCells then Apply(m, keys, Seed) else m
  }

  /** The lists `Cells(bounds, createCells)` yields, starting from `m`: each
      visited key yields the list under it if there is one, and otherwise,
      when creating, the new empty list. */
  function Yielded<T(==)>(m: Backing<T>, keys: seq<int>, createCells: bool): seq<seq<SpatialEntry<T>>>
  {
    if keys == [] then []
    else
      var prefix, k := keys[..|keys| - 1], keys[|keys| - 1];
      var before := Seeded(m, prefix, createCells);
      Yielded(m, prefix, createCells)
        + (if k in before then [before[k]] else if createCells then [[]] else [])
  }

  lemma YieldedSnoc<T>(m: Backing<T>, keys: seq<int>, k: int, createCells: bool)
    ensures var before := Seeded(m, keys, createCells);
      Yielded(m, keys + [k], createCells) == Yielded(m, keys, createCells)
        + (if k in before then [before[k]] else if createCells then [[]] else [])
  {
    assert (keys + [k])[..|keys|] == keys;
  }

  /** One visit of `Cells`: an existing list is yielded; a missing one is
      created and yielded, or skipped when not creating. */
  lemma CellsStep<T>(m: Backing<T>, keys: seq<int>, k: int, createCells: bool)
    ensures var before := Seeded(m, keys, createCells);
      && Seeded(m, keys + [k], createCells) == (if createCells && k !in before then before[k := []] else before)
      && Yielded(m, keys + [k], createCells) == Yielded(m, keys, createCells)
        + (if k in before then [before[k]] else if createCells then [[]] else [])
  {
    YieldedSnoc(m, keys, k, createCells);
    ApplySnoc(m, keys, k, Seed);
  }

  /** The lists under `keys`, in order. */
  function ListsAt<T>(m: Backing<T>, keys: seq<int>): (lists: seq<seq<SpatialEntry<T>>>)
    ensures |lists| == |keys|
    ensures forall i :: 0 <= i < |keys| ==> lists[i] == ListAt(m, keys[i])
  {
    if keys == [] then [] else ListsAt(m, keys[..|keys| - 1]) + [ListAt(m, keys[|keys| - 1])]
  }

  /** The visited keys that have a list in `m`, in order. */
  function Present<T>(m: Backing<T>, keys: seq<int>): (present: seq<int>)
    ensures forall k :: k in present <==> k in keys && k in m
  {
    if keys == [] then []
    else
      var prefix, k := keys[..|keys| - 1], keys[|keys| - 1];
      assert keys == prefix + [k];
      Present(m, prefix) + (if k in m then [k] else [])
  }

  /** When every visited key has a list, all of them are present. */
  lemma {:induction false} PresentAll<T>(m: Backing<T>, keys: seq<int>)
    requires forall k :: k in keys ==> k in m
    ensures Present(m, keys) == keys
  {
    if keys != [] {
      var prefix := keys[..|keys| - 1];
      assert keys == prefix + [keys[|keys| - 1]];
      PresentAll(m, prefix);
    }
  }

  lemma ListsAtSnoc<T>(m: Backing<T>, keys: seq<int>, k: int)
    ensures ListsAt(m, keys + [k]) == ListsAt(m, keys) + [ListAt(m, k)]
  {
    assert (keys + [k])[..|keys|] == keys;
  }

  /** Without creating, the lists yielded are those of the visited keys that
      exist, in visiting order; the map does not change (`Seeded` is `m`). */
  lemma {:induction false} YieldedWithoutCreating<T>(m: Backing<T>, keys: seq<int>)
    ensures Yielded(m, keys, false) == ListsAt(m, Present(m, keys))
  {
    if keys != [] {
      var prefix, k := keys[..|keys| - 1], keys[|keys| - 1];
      var p := Present(m, prefix);
      YieldedWithoutCreating(m, prefix);
      if k in m {
        assert Present(m, keys) == p + [k];
        ListsAtSnoc(m, p, k);
      } else {
        assert Present(m, keys) == p + [];
        assert p + [] == p;
      }
    }
  }

  /** Creating, every visited key yields exactly one list: the one it holds
      once the enumeration is over. */
  lemma {:induction false} YieldedCreating<T>(m: Backing<T>, keys: seq<int>)
    ensures Yielded(m, keys, true) == ListsAt(Apply(m, keys, Seed), keys)
  {
    if keys != [] {
      var prefix, k := keys[..|keys| - 1], keys[|keys| - 1];
      var before := Apply(m, prefix, Seed);
      YieldedCreating(m, prefix);
      assert keys == prefix + [k];
      forall i | 0 <= i < |prefix|
        ensures ListAt(Step(before, k, Seed), prefix[i]) == ListAt(before, prefix[i])
      {
      }
    }
  }

  /** After `Cells(bounds, true)`, enumerating the same bounds again without
      creating yields the same lists (lette.tests/TestSpatialMap.cs:48-50). */
  lemma ReenumerateAfterSeeding<T>(m: Backing<T>, keys: seq<int>)
    ensures Yielded(Seeded(m, keys, true), keys, false) == Yielded(m, keys, true)
  {
    forall k | k in keys
      ensures k in Apply(m, keys, Seed)
    {
      SeedContents(m, keys, k);
    }
    YieldedWithoutCreating(Apply(m, keys, Seed), keys);
    PresentAll(Apply(m, keys, Seed), keys);
    YieldedCreating(m, keys);
  }

  /** An empty map yields nothing without creating (lette.tests/TestSpatialMap.cs:45). */
  lemma {:induction false} EmptyYieldsNothing<T>(keys: seq<int>)
    ensures Yielded<T>(map[], keys, false) == []
  {
    if keys != [] {
      EmptyYieldsNothing<T>(keys[..|keys| - 1]);
    }
  }

  /** Creating yields one list per visited cell, even where two cells share a key. */
  lemma YieldedCountCreating<T>(m: Backing<T>, keys: seq<int>)
    ensures |Yielded(m, keys, true)| == |keys|
  {
    YieldedCreating(m, keys);
  }

  /** `Apply` over the keys the loops over `r` visit before column `x`, row `y`. */
  function ApplyBefore<T(==)>(m: Backing<T>, r: Rectangle, x: int, y: int, op: CellOp<T>): Backing<T>
    decreases x - r.X, y - r.Y
  {
    if y > r.Y then Step(ApplyBefore(m, r, x, y - 1, op), CellKey((x, y - 1)), op)
    else if x > r.X then ApplyBefore(m, r, x - 1, RowEnd(r), op)
    else m
  }

  lemma {:induction false} ApplyBeforeIsApply<T>(m: Backing<T>, r: Rectangle, x: int, y: int, op: CellOp<T>)
    ensures ApplyBefore(m, r, x, y, op) == Apply(m, Visited(r, x, y), op)
    decreases x - r.X, y - r.Y
  {
    if y > r.Y {
      ApplyBeforeIsApply(m, r, x, y - 1, op);
      ApplySnoc(m, Visited(r, x, y - 1), CellKey((x, y - 1)), op);
    } else if x > r.X {
      ApplyBeforeIsApply(m, r, x - 1, RowEnd(r), op);
    }
  }

  /** `Seeded` over the keys visited before column `x`, row `y`. */
  function SeededBefore<T(==)>(m: Backing<T>, r: Rectangle, x: int, y: int, createCells: bool): Backing<T>
  {
    if createCells then ApplyBefore(m, r, x, y, Seed) else m
  }

  /** `Yielded` over the keys visited before column `x`, row `y`. */
  function YieldedBefore<T(==)>(m: Backing<T>, r: Rectangle, x: int, y: int, createCells: bool): seq<seq<SpatialEntry<T>>>
    decreases x - r.X, y - r.Y
  {
    if y > r.Y then
      var before, k := SeededBefore(m, r, x, y - 1, createCells), CellKey((x, y - 1));
      YieldedBefore(m, r, x, y - 1, createCells)
        + (if k in before then [before[k]] else if createCells then [[]] else [])
    else if x > r.X then YieldedBefore(m, r, x - 1, RowEnd(r), createCells)
    else []
  }

  lemma {:induction false} YieldedBeforeIsYielded<T>(m: Backing<T>, r: Rectangle, x: int, y: int, createCells: bool)
    ensures SeededBefore(m, r, x, y, createCells) == Seeded(m, Visited(r, x, y), createCells)
    ensures YieldedBefore(m, r, x, y, createCells) == Yielded(m, Visited(r, x, y), createCells)
    decreases x - r.X, y - r.Y
  {
    ApplyBeforeIsApply(m, r, x, y, Seed);
    if y > r.Y {
      YieldedBeforeIsYielded(m, r, x, y - 1, createCells);
      ApplyBeforeIsApply(m, r, x, y - 1, Seed);
      YieldedSnoc(m, Visited(r, x, y - 1), CellKey((x, y - 1)), createCells);
    } else if x > r.X {
      YieldedBeforeIsYielded(m, r, x - 1, RowEnd(r), createCells);
    }
  }

  /** `Apply` over the keys a loop of `Update` over `r` visits, against
      `other`, before column `x`, row `y`. */
  function ApplyOutsideBefore<T(==)>(m: Backing<T>, r: Rectangle, other: Rectangle, x: int, y: int, op: CellOp<T>): Backing<T>
    decreases x - r.X, y - r.Y
  {
    if y > r.Y then
      var before := ApplyOutsideBefore(m, r, other, x, y - 1, op);
      if OutsideAsWritten((x, y - 1), other) then Step(before, CellKey((x, y - 1)), op) else before
    else if x > r.X then ApplyOutsideBefore(m, r, other, x - 1, RowEnd(r), op)
    else m
  }

  lemma {:induction false} ApplyOutsideBeforeIsApply<T>(m: Backing<T>, r: Rectangle, other: Rectangle, x: int, y: int, op: CellOp<T>)
    ensures ApplyOutsideBefore(m, r, other, x, y, op) == Apply(m, VisitedOutside(r, other, x, y), op)
    decreases x - r.X, y - r.Y
  {
    if y > r.Y {
      var keys := VisitedOutside(r, other, x, y - 1);
      ApplyOutsideBeforeIsApply(m, r, other, x, y - 1, op);
      if OutsideAsWritten((x, y - 1), other) {
        ApplySnoc(m, keys, CellKey((x, y - 1)), op);
      } else {
        assert keys + [] == keys;
      }
    } else if x > r.X {
      ApplyOutsideBeforeIsApply(m, r, other, x - 1, RowEnd(r), op);
    }
  }

  /** A key that is not visited does not occur; a visited one does. */
  lemma {:induction false} OccurrencesCount(keys: seq<int>, k: int)
    ensures k !in keys ==> Occurrences(keys, k) == 0
    ensures k in keys ==> Occurrences(keys, k) >= 1
  {
    if keys != [] {
      var prefix := keys[..|keys| - 1];
      assert keys == prefix + [keys[|keys| - 1]];
      OccurrencesCount(prefix, k);
    }
  }

  lemma OccurrencesSnoc(keys: seq<int>, k: int, key: int)
    ensures Occurrences(keys + [k], key) == Occurrences(keys, key) + (if k == key then 1 else 0)
  {
    assert (keys + [k])[..|keys|] == keys;
  }

  /** `Insert` over a rectangle at non-negative columns: every visited key
      holds a list afterwards, which has gained the entry exactly once;
      every other list is unchanged. */
  lemma InsertOnce<T>(m: Backing<T>, r: Rectangle, e: SpatialEntry<T>, k: int)
    requires IsInt32Rectangle(r) && r.X >= 0
    ensures k in Apply(m, SpanKeys(r), Append(e)) <==> k in m || k in SpanKeys(r)
    ensures ListAt(Apply(m, SpanKeys(r), Append(e)), k) == ListAt(m, k) + (if k in SpanKeys(r) then [e] else [])
  {
    AppendKeys(m, SpanKeys(r), e, k);
    AppendContents(m, SpanKeys(r), e, k);
    SpanKeysDistinct(r);
    OccurrencesOfNoRepeats(SpanKeys(r), k);
    assert Repeat(e, 1) == [e];
  }

  /** In a negative column every cell has the key `x`: the loops over `r`
      visit the key `r.X` once per row of the first column. */
  lemma {:induction false} NegativeColumnVisits(r: Rectangle, x: int, y: int)
    requires LoopPoint(r, x, y) && r.X < 0
    ensures Occurrences(Visited(r, x, y), r.X) == if x > r.X then RowEnd(r) - r.Y else y - r.Y
    decreases x - r.X, y - r.Y
  {
    if y > r.Y {
      NegativeColumnVisits(r, x, y - 1);
      OccurrencesSnoc(Visited(r, x, y - 1), CellKey((x, y - 1)), r.X);
      KeyCollisions((x, y - 1), (r.X, r.Y));
    } else if x > r.X {
      NegativeColumnVisits(r, x - 1, RowEnd(r));
    }
  }

  /** So `Insert` over a rectangle whose first column is negative adds the
      entry to that column's list once per row: for the box (-1, -1, 2, 2)
      at cell size 10, whose indices are (-1, -1, 1, 1), the list under key
      -1 receives it twice. */
  lemma InsertNegativeColumn<T>(m: Backing<T>, r: Rectangle, e: SpatialEntry<T>)
    requires IsInt32Rectangle(r) && r.X < 0 && r.X < r.Width
    ensures ListAt(Apply(m, SpanKeys(r), Append(e)), r.X) == ListAt(m, r.X) + Repeat(e, RowEnd(r) - r.Y)
  {
    AppendContents(m, SpanKeys(r), e, r.X);
    NegativeColumnVisits(r, ColumnEnd(r), r.Y);
  }

  /** `Remove` over a rectangle at non-negative columns adds and deletes no
      key and takes the first copy of the entry out of each visited list. */
  lemma RemoveOnce<T>(m: Backing<T>, r: Rectangle, e: SpatialEntry<T>, k: int)
    requires IsInt32Rectangle(r) && r.X >= 0
    ensures k in Apply(m, SpanKeys(r), Drop(e)) <==> k in m
    ensures k in m ==> Apply(m, SpanKeys(r), Drop(e))[k] == if k in SpanKeys(r) then RemoveFirst(m[k], e) else m[k]
  {
    DropKeys(m, SpanKeys(r), e, k);
    if k in m {
      DropContents(m, SpanKeys(r), e, k);
      SpanKeysDistinct(r);
      OccurrencesOfNoRepeats(SpanKeys(r), k);
    }
  }

  /** So a list that held one copy of the entry holds none after `Remove`. */
  lemma RemovedIsGone<T>(m: Backing<T>, r: Rectangle, e: SpatialEntry<T>, k: int)
    requires IsInt32Rectangle(r) && r.X >= 0 && k in m && k in SpanKeys(r)
    requires multiset(m[k])[e] <= 1
    ensures k in Apply(m, SpanKeys(r), Drop(e))
    ensures e !in Apply(m, SpanKeys(r), Drop(e))[k]
  {
    RemoveOnce(m, r, e, k);
    RemoveFirstMultiset(m[k], e);
    assert multiset(RemoveFirst(m[k], e))[e] == 0;
  }

  /** What `Update` does to the map once it passes the early exit: the first
      loop removes `e` from the cells of `o` that pass the condition against
      `n`, then the second appends `e` (the entry as passed in) to the cells
      of `n` that pass it against `o`. */
  function Updated<T(==)>(m: Backing<T>, o: Rectangle, n: Rectangle, e: SpatialEntry<T>): Backing<T>
  {
    Apply(Apply(m, OutsideKeys(o, n), Drop(e)), OutsideKeys(n, o), Append(e))
  }

  /** Only the keys the two loops visit can change. */
  lemma UpdateFrame<T>(m: Backing<T>, o: Rectangle, n: Rectangle, e: SpatialEntry<T>, k: int)
    requires k !in OutsideKeys(o, n) && k !in OutsideKeys(n, o)
    ensures k in Updated(m, o, n, e) <==> k in m
    ensures ListAt(Updated(m, o, n, e), k) == ListAt(m, k)
  {
    var dropped := Apply(m, OutsideKeys(o, n), Drop(e));
    DropKeys(m, OutsideKeys(o, n), e, k);
    OccurrencesCount(OutsideKeys(o, n), k);
    if k in m {
      DropContents(m, OutsideKeys(o, n), e, k);
    }
    AppendKeys(dropped, OutsideKeys(n, o), e, k);
    AppendContents(dropped, OutsideKeys(n, o), e, k);
    OccurrencesCount(OutsideKeys(n, o), k);
  }

  /** Every list the second loop visits ends with the entry passed in, not
      with the entry `Update` returns. */
  lemma UpdateStoresOldEntry<T>(m: Backing<T>, o: Rectangle, n: Rectangle, e: SpatialEntry<T>, k: int)
    requires k in OutsideKeys(n, o)
    ensures k in Updated(m, o, n, e)
    ensures var list := Updated(m, o, n, e)[k]; |list| > 0 && list[|list| - 1] == e
  {
    var dropped := Apply(m, OutsideKeys(o, n), Drop(e));
    AppendKeys(dropped, OutsideKeys(n, o), e, k);
    AppendContents(dropped, OutsideKeys(n, o), e, k);
    OccurrencesCount(OutsideKeys(n, o), k);
  }

  /** A cell of the rectangle's own span always passes the condition, so a
      loop of `Update` against the same rectangle visits its whole span. */
  lemma {:induction false} OutsideOwnVisited(r: Rectangle, x: int, y: int)
    requires LoopPoint(r, x, y)
    ensures VisitedOutside(r, r, x, y) == Visited(r, x, y)
    decreases x - r.X, y - r.Y
  {
    if y > r.Y {
      OutsideOwnVisited(r, x, y - 1);
      OutsideOfOwnSpan(r, (x, y - 1));
    } else if x > r.X {
      OutsideOwnVisited(r, x - 1, RowEnd(r));
    }
  }

  /** When the entry moves within the same cells (at non-negative columns),
      each of its lists loses the first copy of the entry and gets it back at
      the end. */
  lemma UpdateInPlace<T>(m: Backing<T>, r: Rectangle, e: SpatialEntry<T>, k: int)
    requires IsInt32Rectangle(r) && r.X >= 0 && k in m && k in SpanKeys(r)
    ensures k in Updated(m, r, r, e)
    ensures Updated(m, r, r, e)[k] == RemoveFirst(m[k], e) + [e]
  {
    OutsideOwnVisited(r, ColumnEnd(r), r.Y);
    RemoveOnce(m, r, e, k);
    InsertOnce(Apply(m, SpanKeys(r), Drop(e)), r, e, k);
  }
}
