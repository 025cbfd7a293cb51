/**
  The caching allocator (`tinygrad/device.py`): `LruAllocator` keeps every memory handle in exactly one place, in
  use, in the cache or returned to the device, and hands a cached one out again only for the same size and options.
 */
module DeviceMemory {
  import opened Wrappers

  /** A piece of device memory; its identity is all that matters here. */
  class Handle {
    constructor () {
    }
  }

  datatype Spec = Spec(uncached: bool, cpuAccess: bool, host: bool, nolru: bool, externalPtr: Option<nat>)

  const DEFAULT_SPEC := Spec(false, false, false, false, None)

  datatype Key = Key(size: nat, options: Option<Spec>)

  predicate External(options: Option<Spec>) { options.Some? && options.value.externalPtr.Some? }

  /** What may enter the cache. */
  predicate Cacheable(options: Option<Spec>) {
    options.None? || (!options.value.nolru && options.value.externalPtr.None?)
  }

  datatype Place = Live(key: Key) | Cached(key: Key) | Released(key: Key)

  datatype Outcome = Got(handle: Handle) | MemoryError | AssertionError

  // ---------------------------------------------------------------- where every handle is

  type Cache = map<Key, seq<Handle>>

  type Places = map<Handle, Place>

  function ListOf(cache: Cache, key: Key): seq<Handle> { if key in cache then cache[key] else [] }

  ghost predicate ListIsCached(list: seq<Handle>, place: Places, key: Key) {
    && (list != [] && key.options.Some? ==> !key.options.value.nolru && key.options.value.externalPtr == None)
    && (forall i :: 0 <= i < |list| ==> list[i] in place && place[list[i]] == Cached(key))
    && (forall i, j :: 0 <= i < j < |list| ==> list[i] != list[j])
  }

  /** The cache lists hold exactly the handles whose place is the cache, each once and under its own key. */
  ghost predicate Consistent(cache: Cache, place: Places) {
    && (forall key :: key in cache ==> ListIsCached(cache[key], place, key))
    && (forall h :: h in place && place[h].Cached? ==> h in ListOf(cache, place[h].key))
  }

  /** Handles keep their size and options for ever, and none leaves the place Released. */
  ghost predicate Evolves(before: Places, after: Places) {
    forall h :: h in before ==>
      h in after && after[h].key == before[h].key && (before[h].Released? ==> after[h].Released?)
  }

  /** The same handles are in use. */
  ghost predicate SameLive(before: Places, after: Places) {
    && (forall h :: h in before && before[h].Live? ==> h in after && after[h] == before[h])
    && (forall h :: h in after && after[h].Live? ==> h in before && before[h].Live?)
  }

  /** One more handle is in use than before. */
  ghost predicate HandedOut(before: Places, after: Places, h: Handle, key: Key) {
    && h in after && after[h] == Live(key) && (h in before ==> !before[h].Live?)
    && (forall g :: g in before && before[g].Live? ==> g in after && after[g] == before[g])
    && (forall g :: g in after && after[g].Live? ==> (g in before && before[g].Live?) || g == h)
  }

  lemma EmptyListIsConsistent(cache: Cache, place: Places, key: Key)
    requires Consistent(cache, place) && key !in cache
    ensures Consistent(cache[key := []], place)
  {
  }

  lemma NewHandleIsConsistent(cache: Cache, place: Places, h: Handle, key: Key)
    requires Consistent(cache, place) && h !in place
    ensures Consistent(cache, place[h := Live(key)])
  {
    forall k | k in cache
      ensures ListIsCached(cache[k], place[h := Live(key)], k)
    {
      assert ListIsCached(cache[k], place, k);
    }
  }

  /** Taking the last handle of a list out of the cache. */
  lemma PopIsConsistent(cache: Cache, place: Places, key: Key, to: Place)
    requires Consistent(cache, place) && key in cache && cache[key] != [] && !to.Cached?
    ensures
      var n := |cache[key]| - 1;
      Consistent(cache[key := cache[key][..n]], place[cache[key][n] := to])
  {
    var list, n := cache[key], |cache[key]| - 1;
    var h := list[n];
    var cache', place' := cache[key := list[..n]], place[h := to];
    assert ListIsCached(list, place, key);
    forall k | k in cache'
      ensures ListIsCached(cache'[k], place', k)
    {
      assert ListIsCached(cache[k], place, k);
      assert forall i :: 0 <= i < |cache'[k]| ==> cache'[k][i] == cache[k][i] && cache[k][i] != h;
    }
    forall g | g in place' && place'[g].Cached?
      ensures g in ListOf(cache', place'[g].key)
    {
      assert g != h && place'[g] == place[g];
      assert g in ListOf(cache, place[g].key);
    }
  }

  lemma ReleaseIsConsistent(cache: Cache, place: Places, h: Handle, key: Key)
    requires Consistent(cache, place) && h in place && place[h] == Live(key)
    ensures Consistent(cache, place[h := Released(key)])
  {
    forall k | k in cache
      ensures ListIsCached(cache[k], place[h := Released(key)], k)
    {
      assert ListIsCached(cache[k], place, k);
    }
  }

  lemma PushIsConsistent(cache: Cache, place: Places, h: Handle, key: Key)
    requires Consistent(cache, place) && h in place && place[h] == Live(key) && Cacheable(key.options)
    ensures Consistent(cache[key := ListOf(cache, key) + [h]], place[h := Cached(key)])
  {
    var cache', place' := cache[key := ListOf(cache, key) + [h]], place[h := Cached(key)];
    assert key in cache ==> ListIsCached(cache[key], place, key);
    forall k | k in cache'
      ensures ListIsCached(cache'[k], place', k)
    {
      assert k in cache ==> ListIsCached(cache[k], place, k);
    }
    forall g | g in place' && place'[g].Cached?
      ensures g in ListOf(cache', place'[g].key)
    {
      if g != h {
        assert g in ListOf(cache, place[g].key);
      }
    }
  }

  /** A handle handed out again was cached for the same size and options, and those may be cached at all. */
  lemma ReissuedForSameKey(cache: Cache, place: Places, key: Key)
    requires Consistent(cache, place) && ListOf(cache, key) != []
    ensures
      var h := ListOf(cache, key)[|ListOf(cache, key)| - 1];
      && h in place && place[h] == Cached(key)
      && (key.options.Some? ==> !key.options.value.nolru && key.options.value.externalPtr == None)
  {
    assert ListIsCached(cache[key], place, key);
  }

  // ---------------------------------------------------------------- the allocator

  class LruAllocator {
    var cache: Cache
    var calls: nat             // requests made to the device so far
    const refuses: nat -> bool // which of them it refuses
    const lru: bool            // the LRU switch
    ghost var place: Places

    constructor (refuses: nat -> bool, lru: bool)
      ensures Valid() && place == map[] && cache == map[]
    {
      this.refuses, this.lru, cache, calls, place := refuses, lru, map[], 0, map[];
    }

    ghost predicate Valid()
      reads this`cache, this`place
    {
      Consistent(cache, place)
    }

    /** The uncached allocation: a new handle, unless the device refuses. */
    method Request(size: nat, options: Option<Spec>) returns (r: Outcome)
      requires Valid()
      modifies this`calls, this`place
      ensures Valid() && (r.AssertionError? <==> size == 0)
      ensures calls == old(calls) + (if size == 0 then 0 else 1) && (size > 0 ==> (r.Got? <==> !refuses(old(calls))))
      ensures
        if r.Got? then r.handle !in old(place) && place == old(place)[r.handle := Live(Key(size, options))]
        else place == old(place)
    {
      if size == 0 {
        return AssertionError;
      }
      calls := calls + 1;
      if refuses(calls - 1) {
        return MemoryError;
      }
      var h := new Handle();
      NewHandleIsConsistent(cache, place, h, Key(size, options));
      place := place[h := Live(Key(size, options))];
      return Got(h);
    }

    /** Returns every cached handle to the device. */
    method FreeCache()
      requires Valid()
      modifies this`cache, this`place
      ensures Valid() && place.Keys == old(place).Keys
      ensures forall h :: h in place ==>
        place[h] == if old(place[h]).Cached? then Released(old(place[h]).key) else old(place[h])
      ensures forall key :: ListOf(cache, key) == []
    {
      var keys := cache.Keys;
      while keys != {}
        invariant keys <= cache.Keys && cache.Keys == old(cache).Keys
        invariant Valid() && place.Keys == old(place).Keys
        invariant forall key :: key in cache ==> cache[key] == if key in keys then old(cache)[key] else []
        invariant forall h :: h in place ==>
          place[h] == old(place[h]) || (old(place[h]).Cached? && place[h] == Released(old(place[h]).key))
      {
        var key :| key in keys;
        FreeList(key);
        keys := keys - {key};
      }
    }

    /** The inner loop and the clearing of one list. */
    method FreeList(key: Key)
      requires Valid() && key in cache
      modifies this`cache, this`place
      ensures Valid() && place.Keys == old(place).Keys && cache == old(cache)[key := []]
      ensures forall h :: h in place ==>
        place[h] == old(place[h]) || (old(place[h]).Cached? && place[h] == Released(old(place[h]).key))
    {
      while cache[key] != []
        invariant Valid() && key in cache && place.Keys == old(place).Keys && cache == old(cache)[key := cache[key]]
        invariant forall h :: h in place ==>
          place[h] == old(place[h]) || (old(place[h]).Cached? && place[h] == Released(old(place[h]).key))
        decreases |cache[key]|
      {
        var n := |cache[key]| - 1;
        assert ListIsCached(cache[key], place, key);
        PopIsConsistent(cache, place, key, Released(key));
        place := place[cache[key][n] := Released(key)];
        cache := cache[key := cache[key][..n]];
      }
    }

    /** Reuses a cached handle of the same size and options, or asks the device, emptying the cache if it refuses. */
    method Alloc(size: nat, options: Option<Spec>) returns (r: Outcome)
      requires Valid()
      modifies this
      ensures Valid() && Evolves(old(place), place)
      ensures if r.Got? then HandedOut(old(place), place, r.handle, Key(size, options)) else SameLive(old(place), place)
      // the most recently cached handle under this key, or else a new one
      ensures
        var c := old(ListOf(cache, Key(size, options)));
        if c != [] then r == Got(c[|c| - 1]) && ListOf(cache, Key(size, options)) == c[..|c| - 1]
        else r.Got? ==> r.handle !in old(place)
      ensures r.AssertionError? ==> size == 0
      // a refusal empties the cache, and the device is asked exactly once more
      ensures
        var c, first := old(ListOf(cache, Key(size, options))), old(calls);
        if c != [] || size == 0 then calls == first
        else if !refuses(first) then r.Got? && calls == first + 1
        else calls == first + 2 && r.Got? == !refuses(first + 1) && forall k :: ListOf(cache, k) == []
    {
      var key := Key(size, options);
      if key !in cache {
        EmptyListIsConsistent(cache, place, key);
        cache := cache[key := []];
      }
      var c := cache[key];
      if c != [] {
        ReissuedForSameKey(cache, place, key);
        PopIsConsistent(cache, place, key, Live(key));
        cache := cache[key := c[..|c| - 1]];
        place := place[c[|c| - 1] := Live(key)];
        return Got(c[|c| - 1]);
      }
      r := Request(size, options);
      if r.MemoryError? {
        FreeCache();
        r := Request(size, options);
      }
    }

    method Free(h: Handle, size: nat, options: Option<Spec>)
      requires Valid() && h in place && place[h] == Live(Key(size, options))
      modifies this`cache, this`place
      ensures Valid() && Evolves(old(place), place)
      ensures
        var key := Key(size, options);
        if lru && (options == None || (!options.value.nolru && options.value.externalPtr == None)) then
          place == old(place)[h := Cached(key)] && cache == old(cache)[key := old(ListOf(cache, key)) + [h]]
        else place == old(place)[h := Released(key)] && cache == old(cache)
    {
      var key := Key(size, options);
      if lru && Cacheable(options) {
        PushIsConsistent(cache, place, h, key);
        cache := cache[key := ListOf(cache, key) + [h]];
        place := place[h := Cached(key)];
      } else {
        ReleaseIsConsistent(cache, place, h, key);
        place := place[h := Released(key)];
      }
    }

    /** A handle that came from elsewhere. */
    ghost method Import(h: Handle, size: nat, options: Option<Spec>)
      requires Valid() && h !in place
      modifies this`place
      ensures Valid() && Evolves(old(place), place) && HandedOut(old(place), place, h, Key(size, options))
    {
      NewHandleIsConsistent(cache, place, h, Key(size, options));
      place := place[h := Live(Key(size, options))];
    }
  }
}
