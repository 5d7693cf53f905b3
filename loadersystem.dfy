/** Handle resolution of `LoaderSystem<H, R>` (lette/Source/Systems/LoaderSystem.cs):
    every component that names a resource by its source string gets the
    generational handle of that resource, one handle and one load request
    per distinct source. The ECS filter of components is an array of
    `{Src, Idx}` records; the asynchronous loading itself is a request
    appended to `Requests`. */
module Loading {
  import opened Wrappers
  import opened Generational

  /** The `Src`/`Idx` part of a handle component (`Sprite`, `Tiles`,
      `Level`); `Src` is a reference and may be `null`. */
  datatype Handle = Handle(Src: Option<string>, Idx: GenIdx)

  /** A `Task.Run` started by `Load(entry, debounce)`, with the token it was
      given. */
  datatype Request = Request(Src: string, Idx: GenIdx, Token: nat, Debounce: bool)

  /** `LoadEntry<T>`: its source and handle are read-only; `TokenSource`
      is the cancellation source of the load in flight, named by a number. */
  class LoadEntry {
    const Src: string
    const Idx: GenIdx
    var TokenSource: Option<nat>

    constructor(src: string, idx: GenIdx)
      ensures Src == src && Idx == idx && TokenSource == None
    {
      Src := src;
      Idx := idx;
      TokenSource := None;
    }
  }

  /** The first handle `Run` cannot process: one without a handle and with
      a `null` source, on which `Dictionary.TryGetValue` throws. */
  function Stop(hs: seq<Handle>): (stop: nat)
    ensures stop <= |hs|
    ensures forall i :: 0 <= i < stop ==> !(IsNull(hs[i].Idx) && hs[i].Src.None?)
    ensures stop < |hs| ==> IsNull(hs[stop].Idx) && hs[stop].Src.None?
  {
    if hs == [] then 0
    else if IsNull(hs[0].Idx) && hs[0].Src.None? then 0
    else 1 + Stop(hs[1..])
  }

  /** The sources among the first `n` handles that get a new entry, in the
      order `Run` meets them: those of handles without a handle whose source
      is neither a key of `known` nor met before. */
  function NewSources(hs: seq<Handle>, known: set<string>, n: int): (sources: seq<string>)
    requires 0 <= n <= |hs|
  {
    if n == 0 then []
    else
      var before := NewSources(hs, known, n - 1);
      var h := hs[n - 1];
      if IsNull(h.Idx) && h.Src.Some? && h.Src.value !in known && h.Src.value !in before
      then before + [h.Src.value]
      else before
  }

  /** The new sources are distinct and unknown, and a processed handle
      without a handle has a known source or a new one; conversely every new
      source is the source of such a handle. */
  lemma {:induction false} NewSourcesAre(hs: seq<Handle>, known: set<string>, n: int)
    requires 0 <= n <= |hs|
    ensures forall j, k :: 0 <= j < k < |NewSources(hs, known, n)| ==> NewSources(hs, known, n)[j] != NewSources(hs, known, n)[k]
    ensures forall s :: s in NewSources(hs, known, n) <==>
      s !in known && exists i :: 0 <= i < n && IsNull(hs[i].Idx) && hs[i].Src == Some(s)
  {
    if n > 0 {
      NewSourcesAre(hs, known, n - 1);
    }
  }

  /** The handles of `cur` after `Run` has processed the first `n` of `hs`:
      a processed handle without a handle has a source, and takes the handle
      of that source's entry; every other handle is as it was; no entry of
      `known` has been replaced. */
  ghost predicate Resolved(hs: seq<Handle>, cur: seq<Handle>, known: map<string, LoadEntry>, entries: map<string, LoadEntry>, n: int)
  {
    && 0 <= n <= |hs| == |cur|
    && (forall s :: s in known ==> s in entries && entries[s] == known[s])
    && (forall j :: 0 <= j < n ==>
          if IsNull(hs[j].Idx)
          then hs[j].Src.Some? && hs[j].Src.value in entries && cur[j] == hs[j].(Idx := entries[hs[j].Src.value].Idx)
          else cur[j] == hs[j])
    && (forall j :: n <= j < |hs| ==> cur[j] == hs[j])
  }

  /** What processing the first `n` handles of `hs` did besides the
      handles: the keys added to `entries` are the new sources; for the
      `j`-th of them one handle was allocated (the `j`-th generation issued
      in this run), one entry created with that source and handle, and one
      load requested with the `j`-th token. */
  ghost predicate Recorded(hs: seq<Handle>, known: map<string, LoadEntry>, entries: map<string, LoadEntry>,
                           requests: seq<Request>, Requests: seq<Request>, token: nat, NextToken: nat,
                           issued: seq<int>, Issued: seq<int>, n: int)
    requires 0 <= n <= |hs|
  {
    var added := NewSources(hs, known.Keys, n);
    && (forall s :: s in entries <==> s in known || s in added)
    && |Requests| == |requests| + |added| && Requests[..|requests|] == requests
    && NextToken == token + |added|
    && |Issued| == |issued| + |added| && Issued[..|issued|] == issued
    && (forall j :: 0 <= j < |added| ==>
          && added[j] in entries
          && entries[added[j]].Src == added[j]
          && entries[added[j]].Idx.Generation == Issued[|issued| + j]
          && Requests[|requests| + j] == Request(added[j], entries[added[j]].Idx, token + j, false))
  }

  /** One handle of `Run` that already has a handle: nothing changes. */
  lemma SkipStep(hs: seq<Handle>, cur: seq<Handle>, known: map<string, LoadEntry>, entries: map<string, LoadEntry>, i: int)
    requires Resolved(hs, cur, known, entries, i) && i < |hs| && !IsNull(hs[i].Idx)
    ensures Resolved(hs, cur, known, entries, i + 1)
    ensures NewSources(hs, known.Keys, i + 1) == NewSources(hs, known.Keys, i)
  {
  }

  /** One handle of `Run` whose source has an entry: it takes the entry's
      handle, and there is no new source. */
  lemma FoundStep(hs: seq<Handle>, cur: seq<Handle>, known: map<string, LoadEntry>, entries: map<string, LoadEntry>, i: int)
    requires Resolved(hs, cur, known, entries, i) && i < |hs| && IsNull(hs[i].Idx)
    requires hs[i].Src.Some? && hs[i].Src.value in entries
    requires forall s :: s in entries <==> s in known || s in NewSources(hs, known.Keys, i)
    ensures Resolved(hs, cur[i := hs[i].(Idx := entries[hs[i].Src.value].Idx)], known, entries, i + 1)
    ensures NewSources(hs, known.Keys, i + 1) == NewSources(hs, known.Keys, i)
  {
  }

  /** One handle of `Run` with a new source: the new entry `e`, the
      generation `g` issued for it and its load request extend the record
      by one new source. */
  lemma NewStep(hs: seq<Handle>, cur: seq<Handle>, known: map<string, LoadEntry>, entries: map<string, LoadEntry>,
                requests: seq<Request>, Requests: seq<Request>, token: nat, NextToken: nat,
                issued: seq<int>, Issued: seq<int>, i: int, e: LoadEntry)
    requires Resolved(hs, cur, known, entries, i) && i < |hs| && IsNull(hs[i].Idx)
    requires Recorded(hs, known, entries, requests, Requests, token, NextToken, issued, Issued, i)
    requires hs[i].Src == Some(e.Src) && e.Src !in entries
    ensures Resolved(hs, cur[i := hs[i].(Idx := e.Idx)], known, entries[e.Src := e], i + 1)
    ensures Recorded(hs, known, entries[e.Src := e], requests, Requests + [Request(e.Src, e.Idx, NextToken, false)],
                     token, NextToken + 1, issued, Issued + [e.Idx.Generation], i + 1)
  {
    var added := NewSources(hs, known.Keys, i);
    assert NewSources(hs, known.Keys, i + 1) == added + [e.Src];
    forall j | 0 <= j < |added|
      ensures added[j] != e.Src
    {
    }
  }

  class LoaderSystem<R> {
    var handles: array?<Handle>
    var resources: GenArr?<R>
    var entries: map<string, LoadEntry>
    var Requests: seq<Request>
    var NextToken: nat
    var Cancelled: seq<nat>

    /** `Load(entry, debounce)`: throws if there is no resource arena;
        otherwise cancels the entry's previous token source, installs a new
        one and starts the load with its token. */
    method Load(entry: LoadEntry, debounce: bool)
      requires resources != null
      modifies this`Requests, this`NextToken, this`Cancelled, entry`TokenSource
      ensures Cancelled == old(Cancelled) + (if old(entry.TokenSource).Some? then [old(entry.TokenSource).value] else [])
      ensures entry.TokenSource == Some(old(NextToken)) && NextToken == old(NextToken) + 1
      ensures Requests == old(Requests) + [Request(entry.Src, entry.Idx, old(NextToken), debounce)]
    {
      if entry.TokenSource.Some? {
        Cancelled := Cancelled + [entry.TokenSource.value];
      }
      entry.TokenSource := Some(NextToken);
      NextToken := NextToken + 1;
      Requests := Requests + [Request(entry.Src, entry.Idx, entry.TokenSource.value, debounce)];
    }

    /** `Run()`. With no filter or no arena nothing happens. Otherwise, in
        filter order, a handle that already has a handle is skipped; one
        whose source has an entry takes that entry's handle; one with a new
        source gets a freshly allocated handle, a new entry and a load. A
        handle without a handle and with a `null` source throws: `ok` is
        false and the handles after it are not reached. */
    method Run() returns (ok: bool)
      requires resources != null ==> resources.Allocator.Valid() && resources.Allocator.Entries.Length > 0
      modifies handles, this`entries, this`Requests, this`NextToken, this`Cancelled
      modifies if handles != null && resources != null then {resources.Allocator, resources.Allocator.Entries} else {}
      ensures resources != null ==>
        resources.Allocator.Valid() && resources.Allocator.Entries == old(resources.Allocator.Entries)
      ensures handles == null || resources == null ==>
        && ok && entries == old(entries) && Requests == old(Requests) && NextToken == old(NextToken)
        && (handles != null ==> handles[..] == old(handles[..]))
      ensures Cancelled == old(Cancelled)
      ensures handles != null && resources != null ==>
        && ok == (Stop(old(handles[..])) == handles.Length)
        && Resolved(old(handles[..]), handles[..], old(entries), entries, Stop(old(handles[..])))
        && Recorded(old(handles[..]), old(entries), entries, old(Requests), Requests, old(NextToken), NextToken,
                    old(resources.Allocator.Issued), resources.Allocator.Issued, Stop(old(handles[..])))
      ensures handles != null && resources != null ==>
        forall j, k ::
          (&& 0 <= j < Stop(old(handles[..])) && 0 <= k < Stop(old(handles[..]))
           && IsNull(old(handles[j]).Idx) && IsNull(old(handles[k]).Idx) && old(handles[j]).Src == old(handles[k]).Src) ==>
          handles[j].Idx == handles[k].Idx
    {
      ok := true;
      if handles == null || resources == null {
        return;
      }
      ghost var hs, known, requests, token := handles[..], entries, Requests, NextToken;
      ghost var allocator := resources.Allocator;
      ghost var issued, slots := allocator.Issued, allocator.Entries;
      var i := 0;
      while i < handles.Length
        invariant 0 <= i <= Stop(hs)
        invariant allocator == resources.Allocator && allocator.Entries == slots
        invariant allocator.Valid() && allocator.Entries.Length > 0
        invariant Resolved(hs, handles[..], known, entries, i)
        invariant Recorded(hs, known, entries, requests, Requests, token, NextToken, issued, allocator.Issued, i)
        invariant Cancelled == old(Cancelled)
        decreases handles.Length - i
      {
        ok := Visit(i, hs, known, requests, token, issued);
        if !ok {
          return;
        }
        i := i + 1;
      }
    }

    /** `new LoadEntry<R>(src, resources.Allocator.Alloc())`: an entry for
        `src` with a freshly allocated handle, whose generation is the one
        the allocator issues next. */
    method NewEntry(src: string) returns (entry: LoadEntry)
      requires resources != null && resources.Allocator.Valid() && resources.Allocator.Entries.Length > 0
      modifies resources.Allocator, resources.Allocator.Entries
      ensures fresh(entry) && entry.Src == src && entry.TokenSource == None
      ensures resources.Allocator.Valid() && resources.Allocator.Entries == old(resources.Allocator.Entries)
      ensures resources.Allocator.Issued == old(resources.Allocator.Issued) + [entry.Idx.Generation]
    {
      var idx := resources.Allocator.Alloc();
      entry := new LoadEntry(src, idx);
    }

    /** The new-source branch of `Visit`: allocate, create the entry, set
        the handle, record the entry and load it. */
    method Create(i: int, ghost hs: seq<Handle>, ghost known: map<string, LoadEntry>, ghost requests: seq<Request>,
                  ghost token: nat, ghost issued: seq<int>)
      requires handles != null && resources != null && 0 <= i < handles.Length
      requires resources.Allocator.Valid() && resources.Allocator.Entries.Length > 0
      requires Resolved(hs, handles[..], known, entries, i)
      requires Recorded(hs, known, entries, requests, Requests, token, NextToken, issued, resources.Allocator.Issued, i)
      requires IsNull(hs[i].Idx) && hs[i].Src.Some? && hs[i].Src.value !in entries
      modifies handles, this`entries, this`Requests, this`NextToken, this`Cancelled
      modifies resources.Allocator, resources.Allocator.Entries
      ensures resources.Allocator.Valid() && resources.Allocator.Entries == old(resources.Allocator.Entries)
      ensures Cancelled == old(Cancelled)
      ensures Resolved(hs, handles[..], known, entries, i + 1)
      ensures Recorded(hs, known, entries, requests, Requests, token, NextToken, issued, resources.Allocator.Issued, i + 1)
    {
      var handle := handles[i];
      ghost var cur := handles[..];
      ghost var before, requested, next := resources.Allocator.Issued, Requests, NextToken;
      var entry := NewEntry(handle.Src.value);
      NewStep(hs, cur, known, entries, requests, requested, token, next, issued, before, i, entry);
      handles[i] := handle.(Idx := entry.Idx);
      entries := entries[entry.Src := entry];
      Load(entry, false);
      assert handles[..] == cur[i := hs[i].(Idx := entry.Idx)];
    }

    /** The body of `Run`'s loop for the `i`-th handle: skipped when it has
        a handle, the entry's handle when its source has an entry, a new
        handle, entry and load when its source is new, and the exception of
        `TryGetValue` (`ok` false, nothing changed) when its source is
        `null`. */
    method Visit(i: int, ghost hs: seq<Handle>, ghost known: map<string, LoadEntry>, ghost requests: seq<Request>,
                 ghost token: nat, ghost issued: seq<int>) returns (ok: bool)
      requires handles != null && resources != null && 0 <= i < handles.Length
      requires resources.Allocator.Valid() && resources.Allocator.Entries.Length > 0
      requires Resolved(hs, handles[..], known, entries, i)
      requires Recorded(hs, known, entries, requests, Requests, token, NextToken, issued, resources.Allocator.Issued, i)
      modifies handles, this`entries, this`Requests, this`NextToken, this`Cancelled
      modifies resources.Allocator, resources.Allocator.Entries
      ensures resources.Allocator.Valid() && resources.Allocator.Entries == old(resources.Allocator.Entries)
      ensures Cancelled == old(Cancelled)
      ensures ok == !(IsNull(hs[i].Idx) && hs[i].Src.None?)
      ensures ok ==> Resolved(hs, handles[..], known, entries, i + 1)
      ensures ok ==> Recorded(hs, known, entries, requests, Requests, token, NextToken, issued, resources.Allocator.Issued, i + 1)
      ensures !ok ==> handles[..] == old(handles[..]) && entries == old(entries) && Requests == old(Requests)
      ensures !ok ==> NextToken == old(NextToken) && resources.Allocator.Issued == old(resources.Allocator.Issued)
    {
      var handle := handles[i];
      ghost var cur := handles[..];
      if !IsNull(handle.Idx) {
        SkipStep(hs, cur, known, entries, i);
        return true;
      }
      if handle.Src.None? {
        return false;
      }
      ok := true;
      if handle.Src.value in entries {
        FoundStep(hs, cur, known, entries, i);
        handles[i] := handle.(Idx := entries[handle.Src.value].Idx);
        assert handles[..] == cur[i := hs[i].(Idx := entries[handle.Src.value].Idx)];
      } else {
        Create(i, hs, known, requests, token, issued);
      }
    }
  }
}
