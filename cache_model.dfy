/**
 The state of the bounded FIFO cache with time-to-live (cache.go) as a value,
 its transitions as functions, and what those transitions promise.

 A `Store` is the pair the Go struct keeps: `data`, from key to value and
 expiry, and `order` (the struct's `chronologicalKeys`), the keys oldest first.
 Time is an integer count of nanoseconds passed in as `now`, standing for
 `time.Now()`; `ttl` is the `time.Duration` in nanoseconds. The class in
 fifo_cache.dfy updates its fields exactly as these functions say.
 */
module CacheModel {
  import opened Seqs

  /** A cached value with its absolute expiry time. */
  datatype Entry<V> = Entry(value: V, expires: int)

  /** The cache's contents: the map and the keys in insertion order, oldest first. */
  datatype Store<K, V> = Store(data: map<K, Entry<V>>, order: seq<K>)

  /** The outcome of a read: the value handed back, whether it was found, and the state after it. */
  datatype Lookup<K, V> = Lookup(value: V, found: bool, after: Store<K, V>)

  /** What `New` starts with. */
  function Empty<K, V>(): Store<K, V> {
    Store(map[], [])
  }

  /**
   The cache's invariant: the order holds exactly the map's keys, each once, and
   the map holds at most `maxSize` entries.
   */
  predicate Inv<K, V>(s: Store<K, V>, maxSize: int) {
    && Distinct(s.order)
    && (forall k :: k in s.order ==> k in s.data)
    && (forall k :: k in s.data ==> k in s.order)
    && |s.data| <= maxSize
  }

  /** Under the invariant the map has as many entries as the order has positions. */
  lemma SizeMatches<K, V>(s: Store<K, V>, maxSize: int)
    requires Inv(s, maxSize)
    ensures |s.data| == |s.order|
  {
    DistinctCard(s.order);
    assert (set y | y in s.order) == s.data.Keys;
    assert |s.data.Keys| == |s.data|;
  }

  // ---------------------------------------------------------------------------
  // addKeyValue and deleteKeyValue

  /** addKeyValue: store the entry and append its key as the newest. */
  function Add<K, V>(s: Store<K, V>, key: K, value: V, expires: int): Store<K, V> {
    Store(s.data[key := Entry(value, expires)], s.order + [key])
  }

  /** deleteKeyValue: filter the key out of the order and delete it from the map. */
  function Remove<K, V>(s: Store<K, V>, key: K): Store<K, V> {
    Store(s.data - {key}, Without(s.order, key))
  }

  /**
   Adding a key that is not stored, to a store with room for it, keeps the map
   and the order in step: the key becomes the newest and the only new entry.
   */
  lemma AddKeeps<K, V>(s: Store<K, V>, maxSize: int, key: K, value: V, expires: int)
    requires Inv(s, maxSize) && key !in s.data && |s.data| < maxSize
    ensures var r := Add(s, key, value, expires);
      && Inv(r, maxSize)
      && r.data.Keys == s.data.Keys + {key}
      && |r.data| == |s.data| + 1
      && r.order[|r.order| - 1] == key
  {
    DistinctSnoc(s.order, key);
  }

  /**
   Removing a key keeps the map and the order in step, drops exactly that key,
   and shrinks the store by one when the key was there.
   */
  lemma RemoveKeeps<K, V>(s: Store<K, V>, maxSize: int, key: K)
    requires Inv(s, maxSize)
    ensures var r := Remove(s, key);
      && Inv(r, maxSize)
      && r.data.Keys == s.data.Keys - {key}
      && |r.data| == if key in s.data then |s.data| - 1 else |s.data|
  {
    WithoutDistinct(s.order, key);
    WithoutMembers(s.order, key);
    var r := Remove(s, key);
    forall k | k in r.order ensures k in r.data {
      assert k in Without(s.order, key);
    }
  }

  /** Removing a key that is not stored changes nothing. */
  lemma RemoveAbsent<K, V>(s: Store<K, V>, maxSize: int, key: K)
    requires Inv(s, maxSize) && key !in s.data
    ensures Remove(s, key) == s
  {
    WithoutAbsent(s.order, key);
    assert s.data - {key} == s.data;
  }

  /** Removing the same key twice is removing it once. */
  lemma RemoveIdempotent<K, V>(s: Store<K, V>, key: K)
    ensures Remove(Remove(s, key), key) == Remove(s, key)
  {
    WithoutIdempotent(s.order, key);
    assert s.data - {key} - {key} == s.data - {key};
  }

  /**
   Removing the key at position `i` of the order leaves every other key in
   its place relative to the rest and every other entry untouched.
   */
  lemma RemoveKeepsOrder<K, V>(s: Store<K, V>, maxSize: int, i: nat)
    requires Inv(s, maxSize) && i < |s.order|
    ensures Remove(s, s.order[i]).order == s.order[..i] + s.order[i + 1..]
    ensures Remove(s, s.order[i]).data == s.data - {s.order[i]}
  {
    WithoutSplice(s.order, i);
  }

  // ---------------------------------------------------------------------------
  // Upsert

  /**
   The switch at the start of Upsert: a key already stored is removed (so it
   loses its position); otherwise, when the map is full, the oldest key is
   evicted. The precondition is exactly what keeps `order[0]` from indexing an
   empty slice.
   */
  function MakeRoom<K, V>(s: Store<K, V>, maxSize: int, key: K): Store<K, V>
    requires key in s.data || |s.data| != maxSize || s.order != []
  {
    if key in s.data then Remove(s, key)
    else if |s.data| == maxSize then Remove(s, s.order[0])
    else s
  }

  /** Upsert at time `now`: make room for the key, then add it with expiry `now + ttl`. */
  function Upsert<K, V>(s: Store<K, V>, maxSize: int, key: K, value: V, now: int, ttl: int): Store<K, V>
    requires key in s.data || |s.data| != maxSize || s.order != []
  {
    Add(MakeRoom(s, maxSize, key), key, value, now + ttl)
  }

  /**
   After making room the key is absent, there is room for one more entry, and
   the surviving entries are as they were: one fewer when the key was stored or
   the store was full, the same number otherwise.
   */
  lemma MakeRoomKeeps<K, V>(s: Store<K, V>, maxSize: int, key: K)
    requires Inv(s, maxSize) && 1 <= maxSize
    ensures key in s.data || |s.data| != maxSize || s.order != []
    ensures var c := MakeRoom(s, maxSize, key);
      && Inv(c, maxSize)
      && key !in c.data
      && |c.data| < maxSize
      && c.data.Keys <= s.data.Keys
      && (forall k :: k in c.data ==> c.data[k] == s.data[k])
      && |c.data| == if key in s.data then |s.data| - 1 else Min(|s.data|, maxSize - 1)
  {
    SizeMatches(s, maxSize);
    if key in s.data {
      RemoveKeeps(s, maxSize, key);
    } else if |s.data| == maxSize {
      assert s.order[0] in s.order;
      RemoveKeeps(s, maxSize, s.order[0]);
    }
  }

  /**
   Upsert keeps the invariant (in particular the size bound), stores the new
   value with expiry `now + ttl` under the newest key, and leaves every other
   surviving entry as it was.
   */
  lemma UpsertKeeps<K, V>(s: Store<K, V>, maxSize: int, key: K, value: V, now: int, ttl: int)
    requires Inv(s, maxSize) && 1 <= maxSize
    ensures key in s.data || |s.data| != maxSize || s.order != []
    ensures var r := Upsert(s, maxSize, key, value, now, ttl);
      && Inv(r, maxSize)
      && key in r.data && r.data[key] == Entry(value, now + ttl)
      && r.order[|r.order| - 1] == key
      && (forall k :: k in r.data && k != key ==> k in s.data && r.data[k] == s.data[k])
  {
    var c := MakeRoom(s, maxSize, key);
    MakeRoomKeeps(s, maxSize, key);
    AddKeeps(c, maxSize, key, value, now + ttl);
  }

  /**
   Upsert grows the store by one entry only when the key is new and there is
   room; otherwise the size stays the same (one key evicted or the key replaced).
   */
  lemma UpsertSize<K, V>(s: Store<K, V>, maxSize: int, key: K, value: V, now: int, ttl: int)
    requires Inv(s, maxSize) && 1 <= maxSize
    ensures key in s.data || |s.data| != maxSize || s.order != []
    ensures |Upsert(s, maxSize, key, value, now, ttl).data|
         == if key in s.data then |s.data| else Min(|s.data| + 1, maxSize)
  {
    var c := MakeRoom(s, maxSize, key);
    MakeRoomKeeps(s, maxSize, key);
    AddKeeps(c, maxSize, key, value, now + ttl);
    assert |Upsert(s, maxSize, key, value, now, ttl).data| == |c.data| + 1;
  }

  /**
   FIFO eviction: a new key arriving at a full store evicts exactly the oldest
   key, `order[0]`, and becomes the newest; nothing else changes.
   */
  lemma UpsertEvictsOldest<K, V>(s: Store<K, V>, maxSize: int, key: K, value: V, now: int, ttl: int)
    requires Inv(s, maxSize) && 1 <= maxSize
    requires key !in s.data && |s.data| == maxSize
    ensures s.order != [] && s.order[0] != key
    ensures var r := Upsert(s, maxSize, key, value, now, ttl);
      && r.order == s.order[1..] + [key]
      && r.data == (s.data - {s.order[0]})[key := Entry(value, now + ttl)]
      && |r.data| == |s.data|
  {
    SizeMatches(s, maxSize);
    assert s.order[0] in s.order;
    WithoutFirst(s.order);
    UpsertKeeps(s, maxSize, key, value, now, ttl);
  }

  /**
   Re-insertion: upserting a stored key cuts it out of its old position and
   appends it as the newest, with the new value and a fresh expiry; no key is
   evicted and the size stays the same.
   */
  lemma UpsertReinserts<K, V>(s: Store<K, V>, maxSize: int, i: nat, value: V, now: int, ttl: int)
    requires Inv(s, maxSize) && 1 <= maxSize && i < |s.order|
    ensures s.order[i] in s.data
    ensures var key := s.order[i];
      var r := Upsert(s, maxSize, key, value, now, ttl);
      && r.order == s.order[..i] + s.order[i + 1..] + [key]
      && r.data == s.data[key := Entry(value, now + ttl)]
      && r.data.Keys == s.data.Keys
      && |r.data| == |s.data|
  {
    var key := s.order[i];
    assert key in s.order;
    RemoveKeepsOrder(s, maxSize, i);
    UpsertKeeps(s, maxSize, key, value, now, ttl);
    var r := Upsert(s, maxSize, key, value, now, ttl);
    assert r.data == s.data[key := Entry(value, now + ttl)];
  }

  /** A new key arriving at a store with room is appended; nothing is evicted. */
  lemma UpsertAppends<K, V>(s: Store<K, V>, maxSize: int, key: K, value: V, now: int, ttl: int)
    requires Inv(s, maxSize) && key !in s.data && |s.data| < maxSize
    ensures var r := Upsert(s, maxSize, key, value, now, ttl);
      && r.order == s.order + [key]
      && r.data == s.data[key := Entry(value, now + ttl)]
      && |r.data| == |s.data| + 1
  {
    AddKeeps(s, maxSize, key, value, now + ttl);
  }

  // ---------------------------------------------------------------------------
  // Read

  /**
   Read at time `now`. An entry expires strictly after its expiry time
   (`expires.Before(now)`): an entry read at exactly `expires` is still found.
   An expired entry is removed from the map and the order as a side effect.
   */
  function Read<K, V>(s: Store<K, V>, key: K, now: int, zero: V): Lookup<K, V> {
    if key !in s.data then Lookup(zero, false, s)
    else if s.data[key].expires < now then Lookup(zero, false, Remove(s, key))
    else Lookup(s.data[key].value, true, s)
  }

  /**
   A read finds the key exactly when it is stored and not yet expired, and then
   hands back its value and changes nothing; otherwise it hands back `zero` and
   leaves the store as if the key had been deleted. Either way the invariant
   holds afterwards and the store does not grow.
   */
  lemma ReadOutcome<K, V>(s: Store<K, V>, maxSize: int, key: K, now: int, zero: V)
    requires Inv(s, maxSize)
    ensures var r := Read(s, key, now, zero);
      && (r.found <==> key in s.data && now <= s.data[key].expires)
      && (r.found ==> r.value == s.data[key].value && r.after == s)
      && (!r.found ==> r.value == zero && r.after == Remove(s, key))
      && (key !in s.data ==> r.after == s)
      && Inv(r.after, maxSize)
      && |r.after.data| <= |s.data|
  {
    RemoveKeeps(s, maxSize, key);
    if key !in s.data {
      RemoveAbsent(s, maxSize, key);
    }
  }

  /** Upsert always takes: a read of the same key at the same time finds the new value. */
  lemma ReadAfterUpsert<K, V>(s: Store<K, V>, maxSize: int, key: K, value: V, now: int, ttl: int, zero: V)
    requires Inv(s, maxSize) && 1 <= maxSize && 0 <= ttl
    ensures key in s.data || |s.data| != maxSize || s.order != []
    ensures var r := Upsert(s, maxSize, key, value, now, ttl);
      Read(r, key, now, zero) == Lookup(value, true, r)
  {
    UpsertKeeps(s, maxSize, key, value, now, ttl);
  }

  /**
   Expiry: after an upsert at time `now`, a read at time `later` (with no other
   change in between) finds the value exactly when `later <= now + ttl`.
   */
  lemma UpsertExpiry<K, V>(s: Store<K, V>, maxSize: int, key: K, value: V, now: int, ttl: int, later: int, zero: V)
    requires Inv(s, maxSize) && 1 <= maxSize
    ensures key in s.data || |s.data| != maxSize || s.order != []
    ensures var r := Read(Upsert(s, maxSize, key, value, now, ttl), key, later, zero);
      && (r.found <==> later <= now + ttl)
      && (r.found ==> r.value == value)
  {
    UpsertKeeps(s, maxSize, key, value, now, ttl);
  }

  // ---------------------------------------------------------------------------
  // Runs of upserts

  function Min(a: int, b: int): int {
    if a <= b then a else b
  }

  /** One upsert of a run: the key, the value and the time it happens. */
  datatype Put<K, V> = Put(key: K, value: V, now: int)

  /** The keys a run of upserts writes. */
  function PutKeys<K, V>(puts: seq<Put<K, V>>): set<K> {
    if puts == [] then {} else {puts[0].key} + PutKeys(puts[1..])
  }

  /** The store after a run of upserts, in order. */
  function UpsertAll<K, V>(s: Store<K, V>, maxSize: int, ttl: int, puts: seq<Put<K, V>>): (r: Store<K, V>)
    requires Inv(s, maxSize) && 1 <= maxSize
    ensures Inv(r, maxSize)
    decreases |puts|
  {
    if puts == [] then s
    else
      var p := puts[0];
      UpsertKeeps(s, maxSize, p.key, p.value, p.now, ttl);
      UpsertAll(Upsert(s, maxSize, p.key, p.value, p.now, ttl), maxSize, ttl, puts[1..])
  }

  /** A subset as large as its superset is the superset. */
  lemma SubsetSameSize<T>(a: set<T>, b: set<T>)
    requires a <= b && |a| == |b|
    ensures a == b
  {
    assert b == a + (b - a);
    assert |b - a| == 0;
  }

  /**
   The counting step on sets alone: if `held` is drawn from `seen` and has
   `min(|seen|, maxSize)` elements, then what an upsert of `key` leaves
   (`held` when `key` is already held, one more up to `maxSize` otherwise)
   is `min(|seen + {key}|, maxSize)`.
   */
  lemma CountStep<K>(held: set<K>, seen: set<K>, key: K, maxSize: int)
    requires held <= seen && |held| == Min(|seen|, maxSize)
    ensures (if key in held then |held| else Min(|held| + 1, maxSize)) == Min(|seen + {key}|, maxSize)
  {
    if key in held {
      assert seen + {key} == seen;
    } else if |held| < maxSize {
      SubsetSameSize(held, seen);
      assert |seen + {key}| == |seen| + 1;
    } else if key in seen {
      assert seen + {key} == seen;
    } else {
      assert |seen + {key}| == |seen| + 1;
    }
  }

  /**
   One upsert, counted: if the store holds `min(|seen|, maxSize)` keys, all of
   them in `seen`, then after upserting `key` it holds
   `min(|seen + {key}|, maxSize)` keys, all of them in `seen + {key}`.
   */
  lemma UpsertCountsKeys<K, V>(s: Store<K, V>, seen: set<K>, maxSize: int, key: K, value: V, now: int, ttl: int)
    requires Inv(s, maxSize) && 1 <= maxSize
    requires s.data.Keys <= seen && |s.data| == Min(|seen|, maxSize)
    ensures key in s.data || |s.data| != maxSize || s.order != []
    ensures var r := Upsert(s, maxSize, key, value, now, ttl);
      && Inv(r, maxSize)
      && r.data.Keys <= seen + {key}
      && |r.data| == Min(|seen + {key}|, maxSize)
  {
    UpsertKeeps(s, maxSize, key, value, now, ttl);
    UpsertSize(s, maxSize, key, value, now, ttl);
    var r := Upsert(s, maxSize, key, value, now, ttl);
    assert r.data.Keys <= s.data.Keys + {key};
    assert |s.data.Keys| == |s.data|;
    CountStep(s.data.Keys, seen, key, maxSize);
  }

  /**
   The general form of the size law for runs of upserts: from a store holding
   `min(|seen|, maxSize)` keys drawn from `seen`, a run of upserts leaves
   `min(|seen + PutKeys(puts)|, maxSize)` keys drawn from that set.
   */
  lemma {:induction false} UpsertAllCountsKeys<K, V>(s: Store<K, V>, seen: set<K>, maxSize: int, ttl: int, puts: seq<Put<K, V>>)
    requires Inv(s, maxSize) && 1 <= maxSize
    requires s.data.Keys <= seen && |s.data| == Min(|seen|, maxSize)
    ensures var r := UpsertAll(s, maxSize, ttl, puts);
      && r.data.Keys <= seen + PutKeys(puts)
      && |r.data| == Min(|seen + PutKeys(puts)|, maxSize)
    decreases |puts|
  {
    if puts != [] {
      var p := puts[0];
      UpsertCountsKeys(s, seen, maxSize, p.key, p.value, p.now, ttl);
      var next := Upsert(s, maxSize, p.key, p.value, p.now, ttl);
      UpsertAllCountsKeys(next, seen + {p.key}, maxSize, ttl, puts[1..]);
      assert seen + {p.key} + PutKeys(puts[1..]) == seen + PutKeys(puts);
    }
  }

  /**
   Size law: a fresh cache after any run of upserts (and no deletes or
   expiring reads) holds `min(number of distinct keys written, maxSize)` entries.
   */
  lemma UpsertAllSize<K, V>(maxSize: int, ttl: int, puts: seq<Put<K, V>>)
    requires 1 <= maxSize
    ensures |UpsertAll(Empty<K, V>(), maxSize, ttl, puts).data| == Min(|PutKeys(puts)|, maxSize)
  {
    UpsertAllCountsKeys(Empty<K, V>(), {}, maxSize, ttl, puts);
    assert {} + PutKeys(puts) == PutKeys(puts);
  }

  // ---------------------------------------------------------------------------
  // The scenario of cache_test.go

  /** `time.Minute` in nanoseconds. */
  const Minute: int := 60 * 1000 * 1000 * 1000

  /** Upserting 1, 2 and 3 into a fresh cache of capacity 3 stores all three, oldest first. */
  lemma ScenarioFill(now: int)
    ensures Upsert(Upsert(Upsert(Empty<int, int>(), 3, 1, 1, now, Minute), 3, 2, 2, now, Minute), 3, 3, 3, now, Minute)
         == Store(map[1 := Entry(1, now + Minute), 2 := Entry(2, now + Minute), 3 := Entry(3, now + Minute)], [1, 2, 3])
  {
    var e := now + Minute;
    var s0 := Empty<int, int>();
    assert MakeRoom(s0, 3, 1) == s0;
    var s1 := Store(map[1 := Entry(1, e)], [1]);
    assert Upsert(s0, 3, 1, 1, now, Minute) == s1;
    assert |s1.data| == 1;
    assert MakeRoom(s1, 3, 2) == s1;
    var s2 := Store(map[1 := Entry(1, e), 2 := Entry(2, e)], [1, 2]);
    assert Upsert(s1, 3, 2, 2, now, Minute) == s2;
    assert |s2.data| == 2;
    assert MakeRoom(s2, 3, 3) == s2;
  }

  /** Upserting 1 again, with 10, moves it behind 2 and 3. */
  lemma ScenarioReinsert(now: int)
    ensures Upsert(Store(map[1 := Entry(1, now + Minute), 2 := Entry(2, now + Minute), 3 := Entry(3, now + Minute)], [1, 2, 3]), 3, 1, 10, now, Minute)
         == Store(map[2 := Entry(2, now + Minute), 3 := Entry(3, now + Minute), 1 := Entry(10, now + Minute)], [2, 3, 1])
  {
    assert Without([1, 2, 3], 1) == [2, 3];
  }

  /** Upserting 4 into the full cache evicts 2, now the oldest. */
  lemma ScenarioEvict(now: int)
    ensures Upsert(Store(map[2 := Entry(2, now + Minute), 3 := Entry(3, now + Minute), 1 := Entry(10, now + Minute)], [2, 3, 1]), 3, 4, 4, now, Minute)
         == Store(map[3 := Entry(3, now + Minute), 1 := Entry(10, now + Minute), 4 := Entry(4, now + Minute)], [3, 1, 4])
  {
    var e := now + Minute;
    var m := map[2 := Entry(2, e), 3 := Entry(3, e), 1 := Entry(10, e)];
    assert |m| == 3;
    assert m - {2} == map[3 := Entry(3, e), 1 := Entry(10, e)];
    assert Without([2, 3, 1], 2) == [3, 1];
  }

  /**
   Capacity 3, ttl one minute, every call at the same instant `now`: upsert 1, 2
   and 3; reading 1 finds 1. Then upsert 1 again with 10 (moving it to the
   newest position) and upsert 4: key 2, now the oldest, has been evicted, so
   reading it gives the zero value, and key 1 maps to 10.
   */
  lemma MaxSizeScenario(now: int)
    ensures var s3 := Upsert(Upsert(Upsert(Empty<int, int>(), 3, 1, 1, now, Minute), 3, 2, 2, now, Minute), 3, 3, 3, now, Minute);
      && Read(s3, 1, now, 0) == Lookup(1, true, s3)
      && var s5 := Upsert(Upsert(s3, 3, 1, 10, now, Minute), 3, 4, 4, now, Minute);
      && Read(s5, 2, now, 0) == Lookup(0, false, s5)
      && Read(s5, 1, now, 0) == Lookup(10, true, s5)
      && s5.order == [3, 1, 4]
  {
    ScenarioFill(now);
    ScenarioReinsert(now);
    ScenarioEvict(now);
  }



}
