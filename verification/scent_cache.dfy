/** The in-memory scent cache: a map from an image hash to the scent
    label computed for it and the time it was stored.

    The clock is an integer argument `now` (seconds), so every operation is
    a function of the map, up to which of several equally old keys a write
    evicts (`OldestKey` picks any of them). Hash values are opaque keys of type `K`, labels
    opaque values of type `V`. */
module ScentCache {
  import opened Wrappers

  /** Seconds an entry stays valid. */
  const CacheTtl: int := 300
  /** The capacity the eviction test compares against. */
  const CacheMaxSize: nat := 100

  /** The pair `(result, timestamp)` stored under a hash. */
  datatype Entry<V> = Entry(result: V, timestamp: int)

  type Cache<K, V> = map<K, Entry<V>>

  /** The answer of a lookup together with the cache it leaves behind. */
  datatype Lookup<K, V> = Lookup(result: Option<V>, cache: Cache<K, V>)

  /** An entry is fresh while strictly less than `CacheTtl` seconds old. */
  predicate IsFresh<V>(e: Entry<V>, now: int)
  {
    now - e.timestamp < CacheTtl
  }

  /** What the cache can still answer at time `now`: its fresh entries. */
  function Live<K, V>(cache: Cache<K, V>, now: int): (live: map<K, V>)
  {
    map k | k in cache && IsFresh(cache[k], now) :: cache[k].result
  }

  /** `get_cached_result`: a fresh hit returns the label and leaves the
      cache alone; a stale hit deletes that one entry and misses; an absent
      hash misses without touching the cache. */
  function GetCachedResult<K, V>(cache: Cache<K, V>, h: K, now: int): (r: Lookup<K, V>)
    ensures h in cache && IsFresh(cache[h], now) ==>
              r.result == Some(cache[h].result) && r.cache == cache
    ensures h in cache && !IsFresh(cache[h], now) ==>
              && r.result == None
              && r.cache.Keys == cache.Keys - {h}
              && forall k :: k in r.cache ==> r.cache[k] == cache[k]
    ensures h !in cache ==> r.result == None && r.cache == cache
  {
    if h in cache then
      if IsFresh(cache[h], now) then Lookup(Some(cache[h].result), cache)
      else Lookup(None, cache - {h})
    else Lookup(None, cache)
  }

  /** A lookup answers exactly what the fresh part of the cache holds, and
      deleting a stale entry changes nothing that the cache can answer now
      or at any later time. */
  lemma LookupAgreesWithLive<K, V>(cache: Cache<K, V>, h: K, now: int, later: int)
    requires now <= later
    ensures GetCachedResult(cache, h, now).result
            == (if h in Live(cache, now) then Some(Live(cache, now)[h]) else None)
    ensures Live(GetCachedResult(cache, h, now).cache, later) == Live(cache, later)
  {
    var r := GetCachedResult(cache, h, now);
    if h in cache && !IsFresh(cache[h], now) {
      assert !IsFresh(cache[h], later);
      assert Live(r.cache, later).Keys == Live(cache, later).Keys;
    }
  }

  /** Looking the same hash up twice at the same time gives the same answer
      and the same cache as looking it up once. */
  lemma LookupIdempotent<K, V>(cache: Cache<K, V>, h: K, now: int)
    ensures var r := GetCachedResult(cache, h, now);
            GetCachedResult(r.cache, h, now) == r
  {
  }

  /** `k` has a minimal timestamp among the entries of `cache`. */
  ghost predicate IsOldest<K, V>(cache: Cache<K, V>, k: K)
  {
    k in cache && forall k' :: k' in cache ==> cache[k].timestamp <= cache[k'].timestamp
  }

  /** `min(scent_cache.keys(), key=timestamp)`: some key whose timestamp is
      minimal. Which one of several equally old keys is returned is left
      open. */
  method OldestKey<K, V>(cache: Cache<K, V>) returns (k: K)
    requires |cache| > 0
    ensures k in cache
    ensures forall k' :: k' in cache ==> cache[k].timestamp <= cache[k'].timestamp
  {
    var rest := cache.Keys;
    assert |rest| > 0;
    k :| k in rest;
    rest := rest - {k};
    while rest != {}
      invariant rest <= cache.Keys
      invariant k in cache
      invariant forall k' :: k' in cache && k' !in rest ==> cache[k].timestamp <= cache[k'].timestamp
      decreases rest
    {
      var j :| j in rest;
      if cache[j].timestamp < cache[k].timestamp {
        k := j;
      }
      rest := rest - {j};
    }
  }

  /** The possible outcomes of a write with eviction test `|cache| > threshold`:
      below the threshold the entry is simply stored; above it one oldest
      entry is removed first. */
  ghost predicate EvictInsert<K, V>(cache: Cache<K, V>, h: K, v: V, now: int, threshold: nat,
                                    cache': Cache<K, V>)
  {
    || (|cache| <= threshold && cache' == cache[h := Entry(v, now)])
    || (|cache| > threshold &&
        exists victim :: victim in cache && IsOldest(cache, victim)
                         && cache' == (cache - {victim})[h := Entry(v, now)])
  }

  /** The write path shared by the code as written and by its corrected
      form; they differ only in `threshold`. The new pair is stored, no
      other entry changes, at most one oldest entry goes, and a size of at
      most `threshold + 1` is kept. */
  method Insert<K, V>(cache: Cache<K, V>, h: K, v: V, now: int, threshold: nat)
    returns (cache': Cache<K, V>)
    ensures h in cache' && cache'[h] == Entry(v, now)
    ensures forall k :: k in cache' && k != h ==> k in cache && cache'[k] == cache[k]
    ensures |cache| <= threshold ==> cache'.Keys == cache.Keys + {h}
    ensures |cache| > threshold ==>
              exists victim :: IsOldest(cache, victim) && cache'.Keys == cache.Keys - {victim} + {h}
    ensures |cache| <= threshold + 1 ==> |cache'| <= threshold + 1
    ensures EvictInsert(cache, h, v, now, threshold, cache')
  {
    if |cache| > threshold {
      var oldest := OldestKey(cache);
      assert IsOldest(cache, oldest);
      cache' := (cache - {oldest})[h := Entry(v, now)];
    } else {
      cache' := cache[h := Entry(v, now)];
    }
    EvictInsertStores(cache, h, v, now, threshold, cache');
    if |cache| <= threshold + 1 {
      EvictInsertBound(cache, h, v, now, threshold, cache');
    }
  }

  /** What any write guarantees, whichever key is evicted: the new pair is
      stored, and every other surviving entry is an unchanged old one. */
  lemma EvictInsertStores<K, V>(cache: Cache<K, V>, h: K, v: V, now: int, threshold: nat,
                                cache': Cache<K, V>)
    requires EvictInsert(cache, h, v, now, threshold, cache')
    ensures h in cache' && cache'[h] == Entry(v, now)
    ensures forall k :: k in cache' && k != h ==> k in cache && cache'[k] == cache[k]
    ensures |cache| <= threshold ==> cache'.Keys == cache.Keys + {h}
    ensures |cache| > threshold ==>
              exists victim :: IsOldest(cache, victim) && cache'.Keys == cache.Keys - {victim} + {h}
  {
  }

  /** A write with eviction test `|cache| > threshold` keeps the size at
      most `threshold + 1` once it is there. */
  lemma EvictInsertBound<K, V>(cache: Cache<K, V>, h: K, v: V, now: int, threshold: nat,
                               cache': Cache<K, V>)
    requires EvictInsert(cache, h, v, now, threshold, cache')
    requires |cache| <= threshold + 1
    ensures |cache'| <= threshold + 1
  {
    if |cache| > threshold {
      var victim :| victim in cache && IsOldest(cache, victim) && cache' == (cache - {victim})[h := Entry(v, now)];
      var smaller := cache - {victim};
      assert smaller.Keys == cache.Keys - {victim};
      assert cache.Keys == smaller.Keys + {victim};
      assert |smaller.Keys| == |cache.Keys| - 1;
    }
  }

  /** `cache_results` as written: evicts one oldest entry only when the
      cache already holds MORE than `CacheMaxSize` entries, then stores
      `(v, now)` under `h`. Its size bound is `CacheMaxSize + 1`. */
  method CacheResults<K, V>(cache: Cache<K, V>, h: K, v: V, now: int) returns (cache': Cache<K, V>)
    ensures h in cache' && cache'[h] == Entry(v, now)
    ensures forall k :: k in cache' && k != h ==> k in cache && cache'[k] == cache[k]
    ensures |cache| <= CacheMaxSize ==> cache' == cache[h := Entry(v, now)]
    ensures |cache| > CacheMaxSize ==>
              exists victim :: IsOldest(cache, victim) && cache'.Keys == cache.Keys - {victim} + {h}
    ensures |cache| <= CacheMaxSize + 1 ==> |cache'| <= CacheMaxSize + 1
    ensures EvictInsert(cache, h, v, now, CacheMaxSize, cache')
  {
    cache' := Insert(cache, h, v, now, CacheMaxSize);
    EvictInsertStores(cache, h, v, now, CacheMaxSize, cache');
    if |cache| <= CacheMaxSize + 1 {
      EvictInsertBound(cache, h, v, now, CacheMaxSize, cache');
    }
  }

  /** `caches` is a sequence of writes from an empty cache: write `i` stores
      `vals[i]` under `keys[i]` at time `times[i]`. */
  ghost predicate IsRun<K, V>(caches: seq<Cache<K, V>>, keys: seq<K>, vals: seq<V>,
                              times: seq<int>, threshold: nat)
  {
    && |caches| == |keys| + 1 && |vals| == |keys| && |times| == |keys|
    && caches[0] == map[]
    && forall i :: 0 <= i < |keys| ==>
         EvictInsert(caches[i], keys[i], vals[i], times[i], threshold, caches[i + 1])
  }

  /** Index of the oldest write that survives `n` writes of distinct keys
      when at most `threshold + 1` entries are kept. */
  function FirstSurvivor(n: nat, threshold: nat): (lo: nat)
    ensures lo <= n && n - lo <= threshold + 1
  {
    if n > threshold + 1 then n - (threshold + 1) else 0
  }

  /** Every key of `cache` is one of the writes `lo .. hi - 1`. */
  ghost predicate OnlyWrites<K, V>(cache: Cache<K, V>, keys: seq<K>, lo: nat, hi: nat)
    requires lo <= hi <= |keys|
  {
    forall k :: k in cache ==> exists j :: lo <= j < hi && keys[j] == k
  }

  /** Every write `lo .. hi - 1` is in `cache` with its written pair. */
  ghost predicate AllWrites<K, V>(cache: Cache<K, V>, keys: seq<K>, vals: seq<V>,
                                  times: seq<int>, lo: nat, hi: nat)
    requires lo <= hi <= |keys| && |vals| == |keys| && |times| == |keys|
  {
    forall j :: lo <= j < hi ==> keys[j] in cache && cache[keys[j]] == Entry(vals[j], times[j])
  }

  /** `cache` holds exactly the writes `lo .. hi - 1` of a sequence, each with
      its written pair. */
  ghost predicate HoldsWrites<K, V>(cache: Cache<K, V>, keys: seq<K>, vals: seq<V>,
                                    times: seq<int>, lo: nat, hi: nat)
    requires lo <= hi <= |keys| && |vals| == |keys| && |times| == |keys|
  {
    && |cache| == hi - lo
    && OnlyWrites(cache, keys, lo, hi)
    && AllWrites(cache, keys, vals, times, lo, hi)
  }

  /** A write without eviction of a key not yet present extends the
      window of held writes by one. */
  lemma StepWithoutEviction<K, V>(cache: Cache<K, V>, keys: seq<K>, vals: seq<V>,
                                  times: seq<int>, lo: nat, hi: nat)
    requires lo <= hi < |keys| && |vals| == |keys| && |times| == |keys|
    requires HoldsWrites(cache, keys, vals, times, lo, hi)
    requires keys[hi] !in cache
    ensures HoldsWrites(cache[keys[hi] := Entry(vals[hi], times[hi])], keys, vals, times, lo, hi + 1)
  {
    var c' := cache[keys[hi] := Entry(vals[hi], times[hi])];
    forall k | k in c'
      ensures exists j :: lo <= j < hi + 1 && keys[j] == k
    {
      if k == keys[hi] {
        assert keys[hi] == k;
      } else {
        var j :| lo <= j < hi && keys[j] == k;
      }
    }
  }

  /** No key is written twice. */
  ghost predicate DistinctKeys<K>(keys: seq<K>)
  {
    forall i, j :: 0 <= i < j < |keys| ==> keys[i] != keys[j]
  }

  /** Every write happens strictly later than the one before. */
  ghost predicate IncreasingTimes(times: seq<int>)
  {
    forall i, j :: 0 <= i < j < |times| ==> times[i] < times[j]
  }

  /** With strictly increasing write times, the oldest held entry is the
      earliest held write. */
  lemma OldestIsEarliest<K, V>(cache: Cache<K, V>, keys: seq<K>, vals: seq<V>,
                               times: seq<int>, lo: nat, hi: nat, victim: K)
    requires lo < hi <= |keys| && |vals| == |keys| && |times| == |keys|
    requires IncreasingTimes(times)
    requires HoldsWrites(cache, keys, vals, times, lo, hi)
    requires victim in cache && IsOldest(cache, victim)
    ensures victim == keys[lo]
  {
    var jv :| lo <= jv < hi && keys[jv] == victim;
    assert cache[victim].timestamp <= cache[keys[lo]].timestamp;
    assert times[jv] <= times[lo];
  }

  /** After evicting the earliest held write and writing a new key, only
      the writes `lo + 1 .. hi` are held. */
  lemma SlideOnlyWrites<K, V>(cache: Cache<K, V>, keys: seq<K>, lo: nat, hi: nat, e: Entry<V>)
    requires lo < hi < |keys|
    requires OnlyWrites(cache, keys, lo, hi)
    ensures OnlyWrites((cache - {keys[lo]})[keys[hi] := e], keys, lo + 1, hi + 1)
  {
    var c' := (cache - {keys[lo]})[keys[hi] := e];
    forall k | k in c'
      ensures exists j :: lo + 1 <= j < hi + 1 && keys[j] == k
    {
      if k == keys[hi] {
        assert keys[hi] == k;
      } else {
        var j :| lo <= j < hi && keys[j] == k;
        assert j != lo;
      }
    }
  }

  /** After evicting the earliest held write and writing a new key, all
      the writes `lo + 1 .. hi` are held with their pairs. */
  lemma SlideAllWrites<K, V>(cache: Cache<K, V>, keys: seq<K>, vals: seq<V>,
                             times: seq<int>, lo: nat, hi: nat)
    requires lo < hi < |keys| && |vals| == |keys| && |times| == |keys|
    requires DistinctKeys(keys)
    requires AllWrites(cache, keys, vals, times, lo, hi)
    ensures AllWrites((cache - {keys[lo]})[keys[hi] := Entry(vals[hi], times[hi])],
                      keys, vals, times, lo + 1, hi + 1)
  {
    var c' := (cache - {keys[lo]})[keys[hi] := Entry(vals[hi], times[hi])];
    forall j | lo + 1 <= j < hi + 1
      ensures keys[j] in c' && c'[keys[j]] == Entry(vals[j], times[j])
    {
      if j < hi {
        assert keys[j] != keys[lo];
        assert keys[j] != keys[hi];
      }
    }
  }

  /** Evicting the earliest held write before writing a new key slides the
      window of held writes by one. */
  lemma StepWithEviction<K, V>(cache: Cache<K, V>, keys: seq<K>, vals: seq<V>,
                               times: seq<int>, lo: nat, hi: nat)
    requires lo < hi < |keys| && |vals| == |keys| && |times| == |keys|
    requires DistinctKeys(keys)
    requires HoldsWrites(cache, keys, vals, times, lo, hi)
    ensures HoldsWrites((cache - {keys[lo]})[keys[hi] := Entry(vals[hi], times[hi])],
                        keys, vals, times, lo + 1, hi + 1)
  {
    var smaller := cache - {keys[lo]};
    assert cache.Keys == smaller.Keys + {keys[lo]};
    assert |smaller| == |cache| - 1;
    NewKeyAbsent(cache, keys, vals, times, lo, hi);
    var c' := smaller[keys[hi] := Entry(vals[hi], times[hi])];
    assert |c'| == hi + 1 - (lo + 1);
    SlideOnlyWrites(cache, keys, lo, hi, Entry(vals[hi], times[hi]));
    assert OnlyWrites(c', keys, lo + 1, hi + 1);
    SlideAllWrites(cache, keys, vals, times, lo, hi);
  }

  /** A key written for the first time is not in the cache yet. */
  lemma NewKeyAbsent<K, V>(cache: Cache<K, V>, keys: seq<K>, vals: seq<V>,
                           times: seq<int>, lo: nat, hi: nat)
    requires lo <= hi < |keys| && |vals| == |keys| && |times| == |keys|
    requires DistinctKeys(keys)
    requires HoldsWrites(cache, keys, vals, times, lo, hi)
    ensures keys[hi] !in cache
  {
    forall j | lo <= j < hi
      ensures keys[j] != keys[hi]
    {
    }
  }

  /** How the oldest surviving write moves on one more write: it stays
      put while the cache has room, and advances by one once it is full. */
  lemma FirstSurvivorStep(m: nat, threshold: nat)
    requires m > 0
    ensures m - 1 - FirstSurvivor(m - 1, threshold) <= threshold ==>
              FirstSurvivor(m - 1, threshold) == 0 && FirstSurvivor(m, threshold) == 0
    ensures m - 1 - FirstSurvivor(m - 1, threshold) > threshold ==>
              FirstSurvivor(m, threshold) == FirstSurvivor(m - 1, threshold) + 1
  {
  }

  /** One more write of a sequence while the cache has room. */
  lemma RunStepKeep<K, V>(cache: Cache<K, V>, keys: seq<K>, vals: seq<V>,
                          times: seq<int>, threshold: nat, m: nat)
    requires 0 < m <= |keys| && |vals| == |keys| && |times| == |keys|
    requires DistinctKeys(keys)
    requires HoldsWrites(cache, keys, vals, times, FirstSurvivor(m - 1, threshold), m - 1)
    requires |cache| <= threshold
    ensures HoldsWrites(cache[keys[m - 1] := Entry(vals[m - 1], times[m - 1])],
                        keys, vals, times, FirstSurvivor(m, threshold), m)
  {
    FirstSurvivorStep(m, threshold);
    NewKeyAbsent(cache, keys, vals, times, 0, m - 1);
    StepWithoutEviction(cache, keys, vals, times, 0, m - 1);
  }

  /** One more write of a sequence once the cache is full. */
  lemma RunStepEvict<K, V>(cache: Cache<K, V>, keys: seq<K>, vals: seq<V>,
                           times: seq<int>, threshold: nat, m: nat, victim: K)
    requires 0 < m <= |keys| && |vals| == |keys| && |times| == |keys|
    requires DistinctKeys(keys)
    requires IncreasingTimes(times)
    requires HoldsWrites(cache, keys, vals, times, FirstSurvivor(m - 1, threshold), m - 1)
    requires |cache| > threshold
    requires victim in cache && IsOldest(cache, victim)
    ensures HoldsWrites((cache - {victim})[keys[m - 1] := Entry(vals[m - 1], times[m - 1])],
                        keys, vals, times, FirstSurvivor(m, threshold), m)
  {
    var lo := FirstSurvivor(m - 1, threshold);
    assert |cache| == m - 1 - lo;
    FirstSurvivorStep(m, threshold);
    assert lo < m - 1 && FirstSurvivor(m, threshold) == lo + 1;
    OldestIsEarliest(cache, keys, vals, times, lo, m - 1, victim);
    StepWithEviction(cache, keys, vals, times, lo, m - 1);
    var c' := (cache - {victim})[keys[m - 1] := Entry(vals[m - 1], times[m - 1])];
    assert c' == (cache - {keys[lo]})[keys[m - 1] := Entry(vals[m - 1], times[m - 1])];
    assert HoldsWrites(c', keys, vals, times, lo + 1, m - 1 + 1);
  }

  /** One more write of a sequence keeps the newest `threshold + 1` writes. */
  lemma RunStep<K, V>(cache: Cache<K, V>, cache': Cache<K, V>, keys: seq<K>, vals: seq<V>,
                      times: seq<int>, threshold: nat, m: nat)
    requires 0 < m <= |keys| && |vals| == |keys| && |times| == |keys|
    requires DistinctKeys(keys)
    requires IncreasingTimes(times)
    requires HoldsWrites(cache, keys, vals, times, FirstSurvivor(m - 1, threshold), m - 1)
    requires EvictInsert(cache, keys[m - 1], vals[m - 1], times[m - 1], threshold, cache')
    ensures HoldsWrites(cache', keys, vals, times, FirstSurvivor(m, threshold), m)
  {
    if |cache| <= threshold {
      RunStepKeep(cache, keys, vals, times, threshold, m);
    } else {
      var victim :| victim in cache && IsOldest(cache, victim)
                    && cache' == (cache - {victim})[keys[m - 1] := Entry(vals[m - 1], times[m - 1])];
      RunStepEvict(cache, keys, vals, times, threshold, m, victim);
    }
  }

  /** After `m` writes of distinct keys at strictly increasing times, the
      cache holds exactly the `threshold + 1` most recently written keys
      (all of them while there are fewer), each with its written pair. */
  lemma {:induction false} RunKeepsNewest<K, V>(caches: seq<Cache<K, V>>, keys: seq<K>,
                                                vals: seq<V>, times: seq<int>,
                                                threshold: nat, m: nat)
    requires IsRun(caches, keys, vals, times, threshold)
    requires DistinctKeys(keys)
    requires IncreasingTimes(times)
    requires m <= |keys|
    ensures HoldsWrites(caches[m], keys, vals, times, FirstSurvivor(m, threshold), m)
  {
    if m > 0 {
      RunKeepsNewest(caches, keys, vals, times, threshold, m - 1);
      assert EvictInsert(caches[m - 1], keys[m - 1], vals[m - 1], times[m - 1], threshold, caches[m]);
      RunStep(caches[m - 1], caches[m], keys, vals, times, threshold, m);
    }
  }

  /** The size bound and the survivors of a sequence of `cache_results` writes as
      written: the `CacheMaxSize + 1` newest keys. */
  lemma CacheResultsRunKeepsNewest<K, V>(caches: seq<Cache<K, V>>, keys: seq<K>,
                                         vals: seq<V>, times: seq<int>)
    requires IsRun(caches, keys, vals, times, CacheMaxSize)
    requires DistinctKeys(keys)
    requires IncreasingTimes(times)
    ensures |caches[|keys|]| <= CacheMaxSize + 1
    ensures |keys| > CacheMaxSize ==> |caches[|keys|]| == CacheMaxSize + 1
    ensures HoldsWrites(caches[|keys|], keys, vals, times, FirstSurvivor(|keys|, CacheMaxSize), |keys|)
  {
    RunKeepsNewest(caches, keys, vals, times, CacheMaxSize, |keys|);
  }

  /** The same for the corrected write: the `CacheMaxSize` newest keys. */
  lemma CacheResultsCappedRunKeepsNewest<K, V>(caches: seq<Cache<K, V>>, keys: seq<K>,
                                               vals: seq<V>, times: seq<int>)
    requires IsRun(caches, keys, vals, times, CacheMaxSize - 1)
    requires DistinctKeys(keys)
    requires IncreasingTimes(times)
    ensures |caches[|keys|]| <= CacheMaxSize
    ensures |keys| >= CacheMaxSize ==> |caches[|keys|]| == CacheMaxSize
    ensures HoldsWrites(caches[|keys|], keys, vals, times, FirstSurvivor(|keys|, CacheMaxSize - 1), |keys|)
  {
    RunKeepsNewest(caches, keys, vals, times, CacheMaxSize - 1, |keys|);
  }

  /** Writing a new hash into a cache holding exactly `CacheMaxSize`
      entries leaves `CacheMaxSize + 1` entries: the code as written does
      not keep the size at or below `CacheMaxSize`. */
  lemma CapacityOvershoot<K, V>(cache: Cache<K, V>, h: K, v: V, now: int, cache': Cache<K, V>)
    requires |cache| == CacheMaxSize && h !in cache
    requires EvictInsert(cache, h, v, now, CacheMaxSize, cache')
    ensures |cache'| == CacheMaxSize + 1
  {
  }

  /** `n` entries stored under the hashes `0 .. n - 1`. */
  function Prefilled(n: nat): (c: Cache<int, string>)
    ensures forall k :: k in c <==> 0 <= k < n
    ensures |c| == n
  {
    if n == 0 then map[]
    else
      var c := Prefilled(n - 1);
      assert n - 1 !in c;
      c[n - 1 := Entry("none", n - 1)]
  }

  /** A concrete cache of 100 entries that one write of the code as written
      takes to 101 entries. */
  method OvershootExample() returns (cache': Cache<int, string>)
    ensures |cache'| == CacheMaxSize + 1
  {
    var cache := Prefilled(CacheMaxSize);
    cache' := CacheResults(cache, CacheMaxSize, "woody", CacheMaxSize);
    CapacityOvershoot(cache, CacheMaxSize, "woody", CacheMaxSize, cache');
  }

  /** `cache_results` with the evidently intended test `>=`: evicts when the
      cache is full, so the size never goes above `CacheMaxSize`. */
  method CacheResultsCapped<K, V>(cache: Cache<K, V>, h: K, v: V, now: int) returns (cache': Cache<K, V>)
    ensures h in cache' && cache'[h] == Entry(v, now)
    ensures forall k :: k in cache' && k != h ==> k in cache && cache'[k] == cache[k]
    ensures |cache| < CacheMaxSize ==> cache' == cache[h := Entry(v, now)]
    ensures |cache| >= CacheMaxSize ==>
              exists victim :: IsOldest(cache, victim) && cache'.Keys == cache.Keys - {victim} + {h}
    ensures |cache| <= CacheMaxSize ==> |cache'| <= CacheMaxSize
    ensures EvictInsert(cache, h, v, now, CacheMaxSize - 1, cache')
  {
    cache' := Insert(cache, h, v, now, CacheMaxSize - 1);
    EvictInsertStores(cache, h, v, now, CacheMaxSize - 1, cache');
    if |cache| <= CacheMaxSize {
      EvictInsertBound(cache, h, v, now, CacheMaxSize - 1, cache');
    }
  }
}
