# caching-go: a bounded FIFO cache with time to live, in Dafny

This project models the generic cache of `cache.go` in the Go package
`cache`. A `Cache[K, V]` has a fixed capacity (`maxSize`) and a fixed time to
live (`ttl`). It keeps every entry in a map from key to value and absolute
expiry time. It also keeps a slice, `chronologicalKeys`, that lists the
stored keys oldest first. What the model covers:

- `New` creates an empty cache.
- `Upsert` stores a value. A key that is already stored is deleted first, so
  it moves to the newest position. Otherwise a full cache evicts its oldest key.
  The new entry expires at `now + ttl`.
- `Read` returns the stored value. An absent key is a miss with the zero value
  of `V`. An expired key is deleted, and the read is a miss.
- `Delete` removes a key, if it is stored.
- The helpers `addKeyValue` and `deleteKeyValue` change the map and the slice
  together. `deleteKeyValue` filters the key out of the slice, keeping the
  other keys in their order; this is what `slices.DeleteFunc` does.

The project has three modules:

- `Seqs` (seqs.dfy) defines `Without`, the order-preserving filter that models
  `slices.DeleteFunc` with the predicate `k == key`, and proves its laws.
- `CacheModel` (cache_model.dfy) writes the cache's state as a value, a
  `Store` of the map and the key order. It writes each operation as a function
  on that value: `Add`, `Remove`, `MakeRoom`, `Upsert` and `Read`. Lemmas state
  what the operations promise: the invariant they keep, FIFO eviction,
  re-insertion, expiry, the size law for runs of upserts, and the scenario of
  `cache_test.go`.
- `FifoCache` (fifo_cache.dfy) is the cache as a class. The fields `data` and
  `chronologicalKeys` are updated in place by `Read`, `Upsert`, `Delete`,
  `AddKeyValue` and `DeleteKeyValue`. Each method's postcondition says that
  the new state is the `CacheModel` function applied to the old state.
  `Read`, `Upsert` and `Delete` also keep the object invariant `Valid()`; the
  two helpers only state the new fields. `DeleteKeyValue` is the
  filtering loop, proved with a loop invariant against `Without`.

Time is a parameter. Every operation that reads the clock takes `now`, an
integer count of nanoseconds standing for `time.Now()`. `ttl` is the
`time.Duration` in nanoseconds. Go's zero value of `V` is passed to the
constructor as `zero`.

The invariant `Inv` says three things. The order lists exactly the map's
keys. Each key appears in it once. The map holds at most `maxSize` entries.
Under `Inv`, the map and the order have the same length (`SizeMatches`).

The model follows the code on expiry. An entry is expired when
`expires.Before(now)`, that is when `expires < now` (cache.go:42). So an entry
read at exactly its expiry time is still found: `Before` is strict.

`Upsert` indexes `chronologicalKeys[0]` when the map is full and the key is
new (cache.go:58-59). The functions `MakeRoom` and `Upsert` and the method
`Upsert` require exactly the condition that keeps that index in range. This
is the condition under which Go does not panic. With a capacity of 0, the
condition fails on the first upsert. `UpsertAllowed`, `MakeRoomKeeps` and
`UpsertKeeps` prove that every valid cache meets it.

The functions `Add`, `Remove`, `MakeRoom`, `Upsert`, `Read`, `Without` and
`UpsertAll` are the specification. The lemmas below state their properties.

## Model

| member | source | states |
|---|---|---|
| Seqs.WithoutMembers | cache.go:82-84 | Filtering keeps exactly the elements other than the key: an element is in the result iff it is in the input and differs from the key. |
| Seqs.WithoutAbsent | cache.go:82-84 | Filtering out an element that does not occur leaves the sequence unchanged. |
| Seqs.WithoutIdempotent | cache.go:82-84 | Filtering twice by the same key gives the same result as filtering once. |
| Seqs.WithoutDistinct | cache.go:82-84 | Filtering keeps a duplicate-free sequence duplicate-free. |
| Seqs.WithoutSplice | cache.go:82-84 | In a duplicate-free sequence, filtering out the element at position i cuts out that one position: the elements before and after it keep their relative order. |
| Seqs.WithoutFirst | cache.go:59 | Filtering out the oldest key of a duplicate-free order drops the head and nothing else. |
| CacheModel.SizeMatches | cache.go:58-59 | Under the invariant the map has exactly as many entries as the key order has positions. |
| CacheModel.AddKeeps | cache.go:72-78 | Adding a key that is absent, with room for it, keeps the invariant; the key is the only new key and becomes the newest in the order; the size grows by one. |
| CacheModel.RemoveKeeps | cache.go:81-86 | Removing a key keeps the invariant and removes exactly that key; the size drops by one if the key was stored and is unchanged otherwise. |
| CacheModel.RemoveAbsent | cache.go:81-86 | Removing a key that is not stored leaves the store unchanged. |
| CacheModel.RemoveIdempotent | cache.go:65-69 | Deleting the same key twice gives the same store as deleting it once. |
| CacheModel.RemoveKeepsOrder | cache.go:82-85 | Removing the key at position i leaves the order with that one position cut out, and the map without that key. |
| CacheModel.MakeRoomKeeps | cache.go:54-60 | On a valid store the switch at the start of Upsert is always defined. Afterwards the key is absent, there is room for one more entry, no entry was added or changed, and the size has dropped by one if the key was stored or the store was full. |
| CacheModel.UpsertKeeps | cache.go:50-63 | On a valid store, Upsert is defined and keeps the invariant, including the size bound. It stores the new value with expiry now + ttl under the newest key, and every other surviving entry is unchanged. |
| CacheModel.UpsertSize | cache.go:54-61 | After Upsert the size is unchanged if the key was stored, and otherwise is min(size + 1, maxSize). |
| CacheModel.UpsertEvictsOldest | cache.go:58-61 | A new key arriving at a full store evicts exactly the oldest key and becomes the newest: the order is the old order minus its head, plus the key; the map loses only the oldest key and gains only the new entry; the size stays the same. |
| CacheModel.UpsertReinserts | cache.go:56-61 | Upserting a stored key cuts it out of its old position and appends it as the newest, with the new value and a fresh expiry; no key is evicted; the key set and the size are unchanged. |
| CacheModel.UpsertAppends | cache.go:54-61 | A new key arriving at a store with room is appended to the order and the map; nothing is evicted and the size grows by one. |
| CacheModel.ReadOutcome | cache.go:32-48 | A read finds the key iff the key is stored and now <= its expiry. When found, the read returns the stored value and leaves the store unchanged. When not found, it returns zero and leaves the store as if the key had been deleted (unchanged when the key was absent). The invariant holds afterwards and the store never grows. |
| CacheModel.ReadAfterUpsert | cache.go:50-63 | With ttl >= 0, a read of the upserted key at the same time finds the new value and changes nothing: an upsert always takes effect. |
| CacheModel.UpsertExpiry | cache.go:42-46 | After an upsert at time now, a read of that key at time later finds the value iff later <= now + ttl, and when it does the value is the one upserted. |
| CacheModel.UpsertAll | cache.go:50-63 | Any run of upserts from a valid store leaves a valid store. |
| CacheModel.UpsertCountsKeys | cache.go:54-61 | One upsert, counted: a store holding min(\|seen\|, maxSize) keys drawn from seen holds min(\|seen + {key}\|, maxSize) keys drawn from seen + {key} afterwards. |
| CacheModel.UpsertAllCountsKeys | cache.go:50-63 | The same count carried through a whole run of upserts. |
| CacheModel.UpsertAllSize | cache.go:54-61 | A new cache, after any run of upserts, holds min(number of distinct keys written, maxSize) entries. |
| CacheModel.ScenarioFill | cache_test.go:12-15 | A new cache of capacity 3 and ttl one minute, after upserting 1, 2 and 3, holds exactly those entries in the order [1, 2, 3]. |
| CacheModel.ScenarioReinsert | cache_test.go:19 | Upserting 1 again with 10 gives the order [2, 3, 1] and changes 1's value to 10. |
| CacheModel.ScenarioEvict | cache_test.go:20 | Upserting 4 into the full cache then evicts 2 and gives the order [3, 1, 4]. |
| CacheModel.MaxSizeScenario | cache_test.go:10-24 | In the test's scenario, reading 1 after the first three upserts finds 1. After the last two upserts, reading 2 misses with the zero value 0, and 1 maps to 10. |
| FifoCache.Cache.constructor | cache.go:23-30 | New gives an empty map and an empty key order, with the given capacity and ttl; a negative capacity is excluded (Go panics), and a positive one gives a valid cache. |
| FifoCache.Cache.Read | cache.go:32-48 | The value, the found flag and the new fields are those of CacheModel.Read; a valid cache stays valid. |
| FifoCache.Cache.Upsert | cache.go:50-63 | The new fields are those of CacheModel.Upsert, the result is always success (Go's nil error), and a valid cache stays valid. |
| FifoCache.Cache.UpsertAllowed | cache.go:58-59 | A valid cache always meets Upsert's precondition, so the oldest-key index is in range. |
| FifoCache.Cache.Delete | cache.go:65-69 | The new fields are those of CacheModel.Remove; a valid cache stays valid. |
| FifoCache.Cache.AddKeyValue | cache.go:71-78 | The new fields are those of CacheModel.Add, with expiry now + ttl. |
| FifoCache.Cache.DeleteKeyValue | cache.go:80-86 | The filtering loop leaves in chronologicalKeys exactly Without(old order, key), and the key is gone from the map. |
| FifoCache.FillClient | cache_test.go:12-15 | Driving the class: after New(3, one minute) and three upserts, the cache is valid and holds entries 1, 2 and 3 in that order. |
| FifoCache.RefillClient | cache_test.go:19-20 | Driving the class: upserting 1 with 10 and then 4 leaves a valid cache holding 3, 1 and 4 in that order. |
| FifoCache.MaxSizeClient | cache_test.go:10-24 | Driving the class through the test: reading 1 finds 1, and reading 2 at the end misses with 0. A further read of 1 finds 10. |

## Left out

- Locking: the `sync.RWMutex` and its `Lock`/`RLock` calls exist only for concurrent use. The model is sequential. `Read` deletes an expired entry while holding only the read lock (cache.go:33 and 43), so two concurrent reads can write the map and the slice at once. This data race is not modelled.
- The clock: `time.Now()` is the parameter `now`, and `time.Duration` is an integer of nanoseconds. The bounds of `time.Time` and any overflow of `now + ttl` are not modelled; integers are unbounded.
- The capacity hint of `make([]K, 0, maxSize)` (cache.go:28) only affects how the slice is allocated, so it is not modelled. A negative capacity makes that call panic; the constructor requires `0 <= maxSize` instead.
- A capacity of 0: such a cache is never `Valid()`. Its first upsert would panic, and Upsert's precondition excludes that.
- Key equality: `K(==)` uses Dafny's equality, which is reflexive. Go's `comparable` also admits `float64` and interface keys, and `NaN != NaN`. A NaN key is never found by the lookups at cache.go:37 and 54. `delete` and the `k == key` filter never remove it (cache.go:82-85). Each `c.data[NaN] = …` at cache.go:73 adds a new entry. Example: with capacity 1, upsert NaN and then 2.0. Evicting `chronologicalKeys[0]` (the NaN) removes nothing from the map, so the map ends up with 2 entries. From then on `len(c.data) == c.maxSize` (cache.go:58) never holds, and the cache grows without bound. The size bound of `UpsertKeeps` and `UpsertAllSize` holds only for key types whose `==` is reflexive. An interface key whose dynamic type is not comparable panics at cache.go:37 and 54; that is not modelled either.
- Copies of the struct: `New` returns the `Cache` by value (cache.go:23). A copy shares the map `data` but has its own `chronologicalKeys` slice header, so two copies updated separately get out of step. The class model is one object behind a reference and cannot show this.
- Slice aliasing: `slices.DeleteFunc` reuses the slice's backing array and zeroes the tail. The model treats `chronologicalKeys` as a value.
- example.go (goroutines that log and sleep) is not part of this model; it does not use the cache.
- The testify assertions of cache_test.go are modelled as the postconditions of `MaxSizeScenario` and `MaxSizeClient`.
