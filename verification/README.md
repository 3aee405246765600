# Scent backend: result cache and websocket connection manager

A Dafny model of the two self-contained state components of the scent
backend's `main.py`:

- the **scent cache** (`get_cached_result`, `cache_results`): a map from an
  image hash to a `(result, timestamp)` pair with a 300-second time-to-live
  checked lazily on read, and a capacity rule that evicts one oldest entry
  before a write when the cache holds more than `CACHE_MAX_SIZE` (100)
  entries;
- the **connection manager** (`ConnectionManager`): two ordered lists of
  websocket handles, one for web clients and one for esp8266 devices, with
  `connect`, `disconnect` and a broadcast per list that tries every handle
  once, in order, and removes the handles whose send failed only after the
  sweep, for send outcomes that `except Exception` catches (a cancelled or
  hung send is under Left out).

The clock is an integer argument `now`, so every cache operation is a
function of the map, up to which of several equally old keys is evicted
(see the `ScentCache.OldestKey` line under Left out). Whether a send to a handle fails is an oracle
`fails: H -> bool` passed to the broadcast. Python's `list.remove`, which
raises `ValueError` on a missing element, is `Lists.RemoveFirst` returning
`None`. The model proves that the broadcast's removal pass never takes that
path, provided nothing else changes the list while a broadcast is under
way (see Left out).

Files: `wrappers.dfy` (`Option`), `lists.dfy` (list operations),
`scent_cache.dfy` (module `ScentCache`), `connection_manager.dfy`
(module `ConnectionManager`).

The name `CACHE_MAX_SIZE` (main.py:31) says the cache should hold at most
100 entries. The code tests `len(scent_cache) > CACHE_MAX_SIZE` (main.py:129),
so it lets the cache reach `CACHE_MAX_SIZE + 1` entries.
`ScentCache.CacheResults` follows the code and proves the `CACHE_MAX_SIZE + 1`
bound. The corrected write is `ScentCache.CacheResultsCapped` (see Findings).

## Model

| member | source | states |
|---|---|---|
| ScentCache.GetCachedResult | main.py:114-125 | a fresh hit (age below 300 s) returns the stored label and leaves the cache as it was; a stale hit returns None and deletes that key and nothing else; an absent hash returns None and leaves the cache as it was |
| ScentCache.LookupAgreesWithLive | main.py:114-125 | a lookup answers exactly what the fresh entries of the cache say about the hash, and deleting a stale entry changes nothing the cache can answer at that time or any later time |
| ScentCache.LookupIdempotent | main.py:114-125 | repeating a lookup at the same time gives the same answer and the same cache |
| ScentCache.OldestKey | main.py:132 | `min` over the keys by timestamp returns a key of the cache whose timestamp is no larger than any other entry's |
| ScentCache.Insert | main.py:129-135 | the write path with eviction test `size > threshold`: the hash maps to `(result, now)` afterwards; every other entry left is an unchanged old one; without eviction the keys grow by the written hash only; with eviction exactly one key of minimal timestamp goes; a cache of at most `threshold + 1` entries stays at most `threshold + 1` |
| ScentCache.EvictInsertStores | main.py:129-135 | after any write the hash maps to `(result, now)`, whether or not it was present before; every other entry left is an unchanged old one; without eviction the keys grow by the written hash only; with eviction exactly one key of minimal timestamp is removed |
| ScentCache.EvictInsertBound | main.py:129-135 | with eviction test `size > threshold`, a cache of at most `threshold + 1` entries still has at most `threshold + 1` entries after a write |
| ScentCache.CacheResults | main.py:127-135 | `cache_results` as written: the written hash maps to `(result, now)`; no other entry changes or appears; at 100 entries or fewer nothing is evicted; above 100 exactly one key of minimal timestamp is evicted; the size bound kept is 101, not 100 |
| ScentCache.RunKeepsNewest | main.py:127-135 | after a sequence of writes of distinct hashes at strictly increasing times, the cache holds exactly the `threshold + 1` most recently written hashes, each with its written pair |
| ScentCache.CacheResultsRunKeepsNewest | main.py:127-135 | for the code as written, a sequence of writes of distinct hashes at strictly increasing times leaves at most 101 entries, exactly 101 once more than 100 hashes were written, and they are the 101 newest |
| ScentCache.CapacityOvershoot | main.py:129-135 | writing a new hash into a cache of exactly 100 entries leaves 101 entries |
| ScentCache.OvershootExample | main.py:129-135 | a concrete cache of 100 entries and one write produce 101 entries |
| ScentCache.CacheResultsCapped | main.py:129-135 | the write with the test corrected to `>=`: same storage guarantees, and a cache of at most 100 entries stays at most 100 |
| ScentCache.CacheResultsCappedRunKeepsNewest | main.py:129-135 | for the corrected write, a sequence of writes of distinct hashes at strictly increasing times leaves at most 100 entries, exactly 100 once 100 or more hashes were written, and they are the 100 newest |
| Lists.RemoveFirst | main.py:58 | `list.remove(x)` succeeds exactly when `x` is in the list, and then the list is one element shorter |
| Lists.RemoveFirstIsSplice | main.py:58 | a successful `list.remove(x)` cuts out the first occurrence of `x` and keeps everything before and after it in order |
| Lists.RemoveFirstMultiset | main.py:58 | a successful `list.remove(x)` takes away exactly one copy of `x` |
| Lists.RemoveEach | main.py:81-82 | removing the elements of a list one by one shortens the list by exactly that many elements when no removal raises |
| Lists.RemoveFailedIsFilter | main.py:69-82 | removing every handle collected as failed never raises, and leaves exactly the handles whose send succeeded, in their original order |
| Lists.FilterCount | main.py:80-82 | after the removal pass a handle whose send failed has no copy left, and one whose send succeeded keeps every copy it had |
| ConnectionManager.Connect | main.py:46-53 | `connect` appends the handle to the end of the esp8266 list when the client type is exactly `"esp8266"`, and to the end of the web list for every other type; the other list is unchanged |
| ConnectionManager.DefaultTypeSelectsWeb | main.py:46-55 | the default client type `"web"` of `connect` and `disconnect` selects the web list and leaves the esp8266 list as the other one |
| ConnectionManager.Disconnect | main.py:55-63 | `disconnect` removes the first occurrence of the handle from the list the client type selects when it is there, and is a no-op otherwise; the other list is never touched |
| ConnectionManager.ConnectDisconnectRoundTrip | main.py:46-63 | connecting a handle not yet in the selected list and then disconnecting it with the same client type restores the registry |
| ConnectionManager.DisconnectIdempotent | main.py:55-63 | after disconnecting a handle held at most once it is gone, and disconnecting it again changes nothing |
| ConnectionManager.SendSweep | main.py:69-78 | the sending loop makes exactly one attempt per handle, in list order, whatever earlier attempts returned or raised as an `Exception`, and collects exactly the failed handles, in order |
| ConnectionManager.BroadcastList | main.py:65-84 | one broadcast over one list: one attempt per handle in order; afterwards the list holds the handles whose send succeeded, in their original order; an empty list stays empty with no attempts |
| ConnectionManager.BroadcastToEsp8266 | main.py:65-84 | `broadcast_to_esp8266` tries every esp8266 handle once, in order, drops exactly the failed ones, and leaves the web list unchanged |
| ConnectionManager.BroadcastToWeb | main.py:87-103 | `broadcast_to_web` tries every web handle once, in order, drops exactly the failed ones, and leaves the esp8266 list unchanged |

## Left out

- `get_image_hash` (main.py:108-112): the MD5 digest is a library call. Hash values are opaque keys.
- `time.time()`: the float clock is replaced by an integer `now` argument. Floating-point subtraction is not modelled.
- `websocket.accept()` and `send_text` are network I/O. The outcome of a send is the oracle `fails`, and the `print` logging is dropped.
- ConnectionManager.Connect: always appends the handle. In the source the append happens only after `await websocket.accept()` (main.py:47) returns, so an `accept` that raises appends nothing; that failure path is not modelled.
- ConnectionManager.BroadcastList, ConnectionManager.BroadcastToEsp8266, ConnectionManager.BroadcastToWeb: the oracle gives the same outcome to every copy of a handle within one sweep. If sends to two copies of one handle could differ, `list.remove` would drop the first copy rather than the one that failed; that case is not modelled.
- ConnectionManager.BroadcastList, ConnectionManager.BroadcastToEsp8266, ConnectionManager.BroadcastToWeb: the model treats a broadcast as one uninterrupted sweep over the list as it was when the broadcast began. The Python loop walks the live list (main.py:70, main.py:90) and yields at every `await connection.send_text(message)` (main.py:73, main.py:92). A `connect` that runs during those pauses appends a handle that the same sweep then also sends to. A `disconnect` that runs during them can make the loop skip a handle. It can also make the later `remove` (main.py:82, main.py:99) raise `ValueError` if the failed handle was already disconnected. Interleaving with other coroutines is not modelled, so the never-raises and exact-survivors results hold only for broadcasts that run without interference.
- ConnectionManager.SendSweep: only the outcomes that `except Exception` (main.py:75, main.py:94) catches are modelled: a send either returns or raises an `Exception`. A `BaseException` that is not an `Exception`, such as `asyncio.CancelledError` when the broadcasting task is cancelled, leaves the `for` loop. `send_text` has no timeout, so a send that never completes stops the sweep at that handle. In both cases the broadcast ends early, later handles get no attempt, and the removal pass (main.py:81-82, main.py:98-99) does not run, so handles that already failed stay in the list. The same restriction applies to ConnectionManager.BroadcastList, ConnectionManager.BroadcastToEsp8266 and ConnectionManager.BroadcastToWeb.
- ScentCache.OldestKey: Python's `min` returns the first minimal key in dict insertion order. The model only promises some key of minimal timestamp, so ties are left open.
- The queues, the thread pool, `active_workers` and `MAX_WORKERS` (main.py:21-36), and the dispatcher and worker code that uses them: this is concurrency and coordination that is not part of this model, including the lock the cache would need under concurrent workers.
- `current_scent_result` (main.py:23) is never read or written by the modelled code.
- `groq_api.py` and `gemini_api.py` are remote model calls that read a fixed `image.jpg`. They contain no local logic to model.

## Findings

| source | as written | input that shows it | evidently intended | confidence | as-written member | corrected member |
|---|---|---|---|---|---|---|
| main.py:129 | eviction runs only when `len(scent_cache) > CACHE_MAX_SIZE` | a cache holding exactly 100 entries and a write of a new hash: nothing is evicted and the cache holds 101 entries | evict when the cache already holds `CACHE_MAX_SIZE` entries (`>=`), so it never holds more than 100 | medium; not executed | ScentCache.OvershootExample | ScentCache.CacheResultsCapped |
