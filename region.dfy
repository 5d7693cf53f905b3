/** The query side of `SpatialMap.Region` (lette/Source/Core/SpatialMap.cs
    lines 45-49): the LINQ pipeline over the lists `Cells(bounds)` yields,
    written as functions on sequences. */
module Regions {
  import opened Framework
  import opened BoundingBox
  import opened SpatialCells
  import opened CellFolds

  /** `SelectMany`: the entries of the lists, list after list. */
  function Flatten<T(!new)>(lists: seq<seq<SpatialEntry<T>>>): (es: seq<SpatialEntry<T>>)
    ensures forall e :: e in es <==> exists i :: 0 <= i < |lists| && e in lists[i]
  {
    if lists == [] then []
    else
      var prefix := lists[..|lists| - 1];
      assert forall i :: 0 <= i < |prefix| ==> prefix[i] == lists[i];
      Flatten(prefix) + lists[|lists| - 1]
  }

  /** The `Where` of `Region`: every entry when `loose`, otherwise those
      whose bounds overlap `bounds`; order is kept. */
  function Matching<T(!new)>(es: seq<SpatialEntry<T>>, bounds: AABB, loose: bool): (r: seq<SpatialEntry<T>>)
    ensures forall e :: e in r <==> e in es && (loose || Overlaps(e.Bounds, bounds))
  {
    if es == [] then []
    else
      var prefix, e := es[..|es| - 1], es[|es| - 1];
      assert es == prefix + [e];
      Matching(prefix, bounds, loose) + (if loose || Overlaps(e.Bounds, bounds) then [e] else [])
  }

  /** `Select(entry => entry.Value)`. */
  function Values<T>(es: seq<SpatialEntry<T>>): (vs: seq<T>)
    ensures |vs| == |es|
    ensures forall i :: 0 <= i < |es| ==> vs[i] == es[i].Value
  {
    if es == [] then [] else Values(es[..|es| - 1]) + [es[|es| - 1].Value]
  }

  /** `Distinct`: the first occurrence of every value, in order. */
  function Distinct<E(==,!new)>(s: seq<E>): (d: seq<E>)
    ensures NoRepeats(d)
    ensures forall v :: v in d <==> v in s
  {
    if s == [] then []
    else
      var prefix, v := s[..|s| - 1], s[|s| - 1];
      assert s == prefix + [v];
      var d := Distinct(prefix);
      if v in d then d else d + [v]
  }

  /** What `Region` returns from the map `m` for the keys of the query's
      cells. */
  function RegionOf<T(==,!new)>(m: Backing<T>, keys: seq<int>, bounds: AABB, loose: bool): (vs: seq<T>)
    ensures NoRepeats(vs)
    ensures forall v :: v in vs ==> exists e :: e in Flatten(Yielded(m, keys, false)) && e.Value == v
  {
    Distinct(Values(Matching(Flatten(Yielded(m, keys, false)), bounds, loose)))
  }

  /** An entry is among the lists under `present`, all of which exist,
      exactly when one of those lists holds it. */
  lemma ListsAtEntries<T(!new)>(m: Backing<T>, present: seq<int>, e: SpatialEntry<T>)
    requires forall k :: k in present ==> k in m
    ensures e in Flatten(ListsAt(m, present)) <==> exists k :: k in present && e in m[k]
  {
    var lists := ListsAt(m, present);
    if e in Flatten(lists) {
      var i :| 0 <= i < |lists| && e in lists[i];
      assert present[i] in present;
    }
    if exists k :: k in present && e in m[k] {
      var k :| k in present && e in m[k];
      var i :| 0 <= i < |present| && present[i] == k;
      assert e in lists[i];
    }
  }

  /** An entry is among the lists `Cells(bounds)` yields exactly when some
      visited key has a list holding it. */
  lemma YieldedEntries<T(!new)>(m: Backing<T>, keys: seq<int>, e: SpatialEntry<T>)
    ensures e in Flatten(Yielded(m, keys, false)) <==> exists k :: k in keys && k in m && e in m[k]
  {
    YieldedWithoutCreating(m, keys);
    ListsAtEntries(m, Present(m, keys), e);
  }

  /** A value is in the region exactly when some existing list of a visited
      key holds an entry with that value that matches the query. */
  lemma RegionContents<T(!new)>(m: Backing<T>, keys: seq<int>, bounds: AABB, loose: bool, v: T)
    ensures v in RegionOf(m, keys, bounds, loose) <==>
      exists k, e :: k in keys && k in m && e in m[k] && (loose || Overlaps(e.Bounds, bounds)) && e.Value == v
  {
    var matching := Matching(Flatten(Yielded(m, keys, false)), bounds, loose);
    var vs := Values(matching);
    if v in vs {
      var j :| 0 <= j < |vs| && vs[j] == v;
      YieldedEntries(m, keys, matching[j]);
    }
    if exists k, e :: k in keys && k in m && e in m[k] && (loose || Overlaps(e.Bounds, bounds)) && e.Value == v {
      var k, e :| k in keys && k in m && e in m[k] && (loose || Overlaps(e.Bounds, bounds)) && e.Value == v;
      YieldedEntries(m, keys, e);
      var j :| 0 <= j < |matching| && matching[j] == e;
      assert vs[j] == v;
    }
  }

  /** After `Insert` of `e` over `r`, a query whose cells share a key with
      `r` and that `e` matches finds `e`'s value. */
  lemma InsertedIsFound<T(!new)>(m: Backing<T>, r: Rectangle, e: SpatialEntry<T>, keys: seq<int>, bounds: AABB, loose: bool, k: int)
    requires IsInt32Rectangle(r) && k in SpanKeys(r) && k in keys
    requires loose || Overlaps(e.Bounds, bounds)
    ensures e.Value in RegionOf(Apply(m, SpanKeys(r), Append(e)), keys, bounds, loose)
  {
    var after := Apply(m, SpanKeys(r), Append(e));
    AppendKeys(m, SpanKeys(r), e, k);
    AppendContents(m, SpanKeys(r), e, k);
    OccurrencesCount(SpanKeys(r), k);
    var n := Occurrences(SpanKeys(r), k);
    assert Repeat(e, n)[n - 1] == e;
    assert e in after[k];
    RegionContents(after, keys, bounds, loose, e.Value);
  }
}
