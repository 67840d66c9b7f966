# Distributed cache: LRU cache with TTL and configuration validation

This project models two parts of the distributed cache server.

**The cache engine** (`cache.go`) is modelled by the class `LruCache.Cache`. It keeps two structures in step:
- an entry table `data` from key to entry;
- a recency order `lru`, a sequence of the same keys with the most recently used first.

It also keeps an entry counter `currentSize` and a capacity `maxSize`.

The two invariants are:
- `Consistent()`: the table and the order hold the same keys, each key once; the counter equals their size; every entry carries its own key.
- `Valid()`: `Consistent()`, and the cache is within capacity or empty.

Every operation that changes the cache keeps `Valid()`. Its `ensures` clauses give the new table and order in terms of the old ones, using three functions on the order:
- `Keep`: unlink keys;
- `Promote`: move a key to the front;
- `EvictToCapacity`: trim from the back.

The module `CacheProperties` composes these steps over several operations. It shows that filling the cache and then overflowing it evicts the first key inserted, that a read keeps the other keys in order, and that a second `Delete` of a key reports false.

The clock is a parameter `now` (nanoseconds). An entry with an expiry time is expired when `now` is strictly after it.

**The configuration** (`config.go`) is modelled by the module `Configuration`. `Validate` runs its checks in a fixed order and returns the first failure as a `ConfigError`, or `None` when the configuration is accepted. It is specified against two definitions:
- `WellFormed`: every condition as a single conjunction;
- `Failures`: every failing check, each judged on its own, in the order `Validate` makes them.

`DefaultConfig` builds the built-in configuration, and it is proved to validate.

## Model

| member | source | states |
|---|---|---|
| LruCache.Keep | cache.go:181-185 | unlinking keys leaves exactly the other keys, no longer than before and with no duplicates added; the definition filters in order |
| LruCache.Promote | cache.go:57-58 | moving a key to the front puts it first, keeps the same set of keys plus that one, and adds no duplicate |
| LruCache.EvictToCapacity | cache.go:94-96 | what eviction leaves is a front part of the order. It is within capacity or empty, unchanged when already within capacity, and exactly `maxSize` long when over a non-negative capacity |
| LruCache.EvictionStops | cache.go:94-96 | when the eviction loop's condition fails, what is left is exactly `EvictToCapacity` of the order it started from |
| LruCache.KeepBack | cache.go:187-193 | unlinking the back key of a duplicate-free order drops exactly its last position |
| LruCache.KeepKeep | cache.go:170-176 | unlinking in two rounds is the same as unlinking the union once |
| LruCache.KeepAbsent | cache.go:100-109 | unlinking keys that are not in the order changes nothing |
| LruCache.DistinctCard | cache.go:21-27 | a duplicate-free order has as many distinct keys as positions |
| LruCache.RemovedLength | cache.go:181-185 | unlinking one stored key shortens a duplicate-free order by one |
| LruCache.CoherentSize | cache.go:21-27 | under the invariant, the counter, the table size and the order length agree |
| LruCache.CoherentInsert | cache.go:88-91 | linking a new key at the front and storing its entry keeps the invariant, with the counter one higher |
| LruCache.CoherentRemove | cache.go:181-185 | unlinking a stored key from both structures and decrementing the counter keeps the invariant |
| LruCache.CoherentPromote | cache.go:54-58 | refreshing a stored entry and moving its key to the front keeps the invariant |
| LruCache.CoherentSweep | cache.go:165-179 | removing any set of stored keys from both structures, with the counter lowered by their number, keeps the invariant |
| LruCache.SweepComplete | cache.go:170-176 | a sweep that removed expired keys only, and kept only unexpired ones, removed exactly the expired keys |
| LruCache.SweepStart | cache.go:169-170 | before Cleanup visits any key, nothing has been removed |
| LruCache.SweepPending | cache.go:170-171 | a key the sweep has still to visit is stored, with its original entry |
| LruCache.SweepStep | cache.go:170-176 | visiting one pending key keeps the sweep's bookkeeping, whether the key is removed because it expired or left in place because it did not |
| LruCache.SweepDone | cache.go:165-179 | after every key is visited, the removed keys are exactly the expired ones, the invariant holds, and no expired entry remains |
| LruCache.AccessedCountBounds | cache.go:195-211 | at most every entry has been read, and some entry has been read if and only if the total access count is positive |
| LruCache.Cache.Entries | cache.go:149-152 | the stored entries listed in recency order, exactly as many as the table holds, the entry at each position being the one stored under that position's key (the sums in Stats and CalculateHitRate range over these) |
| LruCache.Cache.EntriesCoverTable | cache.go:149-152 | every stored entry appears in `Entries`, at the position of its key, so with the equal length each stored entry is counted exactly once |
| LruCache.Cache.constructor | cache.go:30-36 | NewCache: an empty, valid cache with the given capacity, which is not checked |
| LruCache.Cache.RemoveEntry | cache.go:181-185 | removeEntry: the key leaves the table and the order, and the counter drops by one |
| LruCache.Cache.PushFront | cache.go:88-91 | the new key goes to the front of the order, its entry is stored, and the counter rises by one |
| LruCache.Cache.EvictLRU | cache.go:187-193 | evictLRU: an empty order is left alone; otherwise exactly the back key is removed from both structures |
| LruCache.Cache.Get | cache.go:39-62 | a value is returned if and only if the key is stored and not expired. A missing key changes nothing; an expired entry is removed. A hit returns the value, counts the access, records `now` and moves the key to the front |
| LruCache.Cache.Set | cache.go:65-97 | the order becomes `EvictToCapacity(Promote(old order, key))`, and the table keeps the ordered keys with a fresh entry for `key`. When `maxSize >= 1`, `key` is first, with the new value, zero accesses, both timestamps `now` and expiry `now + ttl` (or none); when `maxSize <= 0` the cache ends up empty |
| LruCache.Cache.EvictOverCapacity | cache.go:93-96 | the eviction loop of Set: the order becomes `EvictToCapacity` of the old order, the table keeps only its keys, and the cache is valid afterwards |
| LruCache.Cache.Delete | cache.go:100-109 | reports true if and only if the key was stored, whether expired or not. Afterwards the key is gone and the other keys keep their entries and their order |
| LruCache.Cache.Exists | cache.go:112-129 | true if and only if the key is stored and not expired; changes nothing, so an expired entry stays stored |
| LruCache.Cache.Clear | cache.go:132-139 | table and order empty, counter zero, capacity kept |
| LruCache.Cache.Cleanup | cache.go:165-179 | returns the number of expired entries. Exactly those are removed, the others keep their entries and their order, no expired entry remains, and the cache stays valid |
| LruCache.Cache.CalculateHitRate | cache.go:195-211 | 0 when no access was counted, otherwise entries read at least once over stored entries; the denominator is never zero and the rate is at most 1 |
| LruCache.Cache.Stats | cache.go:142-162 | the number of keys, capacity, counter, the sum of access counts, the sum of value lengths and the hit rate |
| CacheProperties.KeepCons | cache.go:181-185 | unlinking from a sequence with a given first key, stated by cases on that key |
| CacheProperties.ReverseSnoc | cache.go:89-91 | reversing a sequence with a key appended puts that key first |
| CacheProperties.ReverseElems | cache.go:89-91 | reversing keeps the same keys |
| CacheProperties.AfterSetsAppend | cache.go:65-97 | a run of Sets split in two is the second part applied to the result of the first |
| CacheProperties.FillWithoutEviction | cache.go:88-96 | distinct new keys set within capacity are all kept, the newest first, in front of the previous order |
| CacheProperties.SetNewWithRoom | cache.go:88-96 | a new key set into a cache with room to spare goes to the front and nothing is evicted |
| CacheProperties.SetIntoFull | cache.go:88-96 | a new key set into a full cache goes to the front and evicts exactly the back key |
| CacheProperties.ReverseDropLast | cache.go:187-193 | dropping the back of a reversed sequence drops its first element |
| CacheProperties.LruEvictsFirstInserted | cache.go:94-96 | `maxSize + 1` distinct Sets into an empty cache of capacity `maxSize >= 1` evict exactly the first key inserted and keep all the others |
| CacheProperties.SetAll | cache.go:65-97 | a run of Sets on the cache itself keeps it valid and leaves the order `AfterSets` of the old order, so the lemmas about `AfterSets` apply to the class |
| CacheProperties.FillAndOverflow | cache.go:65-97 | a new cache of capacity `maxSize >= 1` given `maxSize + 1` distinct keys no longer stores the first key and stores every other, newest first |
| CacheProperties.Survivors | cache.go:187-193 | of distinct keys, all but the first remain after the first is dropped |
| CacheProperties.PromoteKeepsOthers | cache.go:57-58 | a hit puts the key in front of the other keys, and those keep their relative order |
| CacheProperties.HitSurvivesNextSet | cache.go:57-58 | with capacity at least two, a key just read survives a Set of another key |
| CacheProperties.DeleteTwice | cache.go:100-109 | a second Delete of the same key reports false and changes nothing more |
| Configuration.Validate | config.go:292-327 | no error if and only if every condition holds (ports in 1..65535, at least 1 MiB of memory, at least one shard, seeds when clustering, a JWT secret and at least one minute of expiry when auth is on). Otherwise the error is the first failing check in source order |
| Configuration.DefaultConfig | config.go:124-193 | the built-in configuration (port 6379, HTTP port 8080, 512 MiB, 16 shards, clustering and auth off) passes Validate |
| Configuration.PortBoundaries | config.go:294-299 | 0 and 65536 are rejected, and 1 and 65535 are accepted, for both the server port and the HTTP port |
| Configuration.CacheBoundaries | config.go:302-307 | exactly 1 MiB of memory is accepted and one byte less is rejected; zero shards are rejected |
| Configuration.SeedsOnlyWhenClustering | config.go:310-314 | with clustering disabled, the seeds do not affect the result |
| Configuration.JwtOnlyWhenAuth | config.go:317-324 | with auth disabled, the JWT secret and expiry do not affect the result; with auth on, exactly one minute of expiry passes and one nanosecond less fails |
| Configuration.FirstFailureWins | config.go:292-327 | a bad server port is reported even when the memory is also too small, which is itself a failing check |

## Left out

- Locking: the read-write mutex is left out, and each operation is modelled as one atomic step.
- StartCleanupRoutine, the goroutine that calls Cleanup on a timer, is not part of this model.
- The clock: each operation takes one `now`. Set reads the clock up to three times and Cleanup once per entry; here those readings are one value.
- Go's map iteration order:
  - `Cleanup` visits the keys in an unspecified order, chosen with `:|`;
  - `Stats` and `CalculateHitRate` sum over the entries in recency order; the sums do not depend on the order.
- The `container/list` element handles: the recency list is a sequence of keys.
- `LruCache.Cache.CalculateHitRate`: the `float64` result is a fraction `Ratio(num, den)`, and 0.0 is `Ratio(0, 1)`.
- Integer widths: `AccessCount` (`int64`) and the time arithmetic `now + ttl` are unbounded integers. Overflow at 2^63 is not modelled.
- The `delete(c.data, key)` in Cleanup's loop is not modelled separately: it has no effect after `removeEntry`.
- `LruCache.Cache.Set`: its push-to-front and its eviction loop live in the helper methods `PushFront` and `EvictOverCapacity`.
- `LruCache.Cache.Cleanup`: the bookkeeping for each step of its sweep is in the lemmas `SweepStart`, `SweepStep` and `SweepDone`.
- `LruCache.Cache.RemoveEntry` demands only that the key is stored, as the source does. Each caller re-establishes the invariant with `CoherentRemove`.
- The entry in Go is a pointer whose `AccessCount` and `LastAccessed` are updated in place. Here it is a value that is replaced in the table. The entry pointer itself never leaves the cache.
- Value slices are shared with callers: Set stores the caller's `[]byte` without copying (cache.go:77) and Get returns that same slice (cache.go:61). Here `Bytes` is an immutable sequence, so a caller writing into such a slice after Set, or into the slice Get returned, is not modelled.
- metrics.go (Prometheus counters and an HTTP endpoint) and main.go (signal handling, a TCP listener, a stub cache) are not part of this model.
- In config.go, `LoadConfig`, `loadFromFile`, `loadFromEnv`, `Save` and `String` are left out. They parse flags, read files and the environment, and serialise to JSON, TOML or YAML.
- The metrics histogram buckets (`[]float64`) are not in `MetricsConfig`, because floating point is not modelled.
