/**
 The cache of cache.go as an object whose methods update its two fields in
 place, each method tied to the transition of CacheModel it performs.

 The Go struct also holds a `sync.RWMutex`; locking exists for concurrent use
 only and is not modelled. Note that `Read` takes only the read lock
 (cache.go:33) and yet deletes an expired entry (cache.go:43): two readers
 running at once can both write the map and the slice, a latent data race in
 the source. Sequentially, which is what this model describes, the deletion is
 well defined.
 */
module FifoCache {
  import opened Seqs
  import opened CacheModel

  class Cache<K(==), V> {
    /** The capacity, fixed at construction. */
    const maxSize: int
    /** Every entry's time to live in nanoseconds, fixed at construction. */
    const ttl: int
    /** What a read hands back on a miss: Go's zero value of `V`. */
    const zero: V

    /** Key to value and absolute expiry time. */
    var data: map<K, Entry<V>>
    /** The stored keys, oldest first. */
    var chronologicalKeys: seq<K>

    /** The two fields as one value. */
    function State(): Store<K, V>
      reads this
    {
      Store(data, chronologicalKeys)
    }

    /** The object invariant: a positive capacity, the fields in step, the size bound. */
    ghost predicate Valid()
      reads this
    {
      1 <= maxSize && Inv(State(), maxSize)
    }

    /**
     New: an empty cache of the given capacity and time to live. A negative
     capacity makes the slice allocation `make([]K, 0, maxSize)` panic. Only a
     positive capacity gives a valid cache: with capacity 0 the first upsert
     would index an empty slice.
     */
    constructor (maxSize: int, ttl: int, zero: V)
      requires 0 <= maxSize
      ensures 1 <= maxSize ==> Valid()
      ensures State() == Empty()
      ensures this.maxSize == maxSize && this.ttl == ttl && this.zero == zero
    {
      this.maxSize := maxSize;
      this.ttl := ttl;
      this.zero := zero;
      data := map[];
      chronologicalKeys := [];
    }

    /**
     Read at time `now`: a miss for an absent key; a miss, and the entry
     deleted, for a key whose expiry lies strictly before `now`; otherwise the
     stored value.
     */
    method Read(key: K, now: int) returns (value: V, found: bool)
      modifies this
      ensures var r := CacheModel.Read(old(State()), key, now, zero);
        value == r.value && found == r.found && State() == r.after
      ensures old(Valid()) ==> Valid()
    {
      if key !in data {
        value, found := zero, false;
      } else if data[key].expires < now {
        DeleteKeyValue(key);
        value, found := zero, false;
      } else {
        value, found := data[key].value, true;
      }
      if old(Valid()) {
        ReadOutcome(old(State()), maxSize, key, now, zero);
      }
    }

    /**
     Upsert at time `now`. A key already stored is deleted first, so that it
     moves to the newest position; otherwise a full cache evicts its oldest
     key. Then the entry is stored with expiry `now + ttl`. Go's result is
     always a nil error: `ok` is always true. The precondition is what keeps
     `chronologicalKeys[0]` in range; every valid cache meets it.
     */
    method Upsert(key: K, val: V, now: int) returns (ok: bool)
      requires key in data || |data| != maxSize || chronologicalKeys != []
      modifies this
      ensures State() == CacheModel.Upsert(old(State()), maxSize, key, val, now, ttl)
      ensures old(Valid()) ==> Valid()
      ensures ok
    {
      if key in data {
        DeleteKeyValue(key);
      } else if |data| == maxSize {
        DeleteKeyValue(chronologicalKeys[0]);
      }
      AddKeyValue(key, val, now);
      if old(Valid()) {
        UpsertKeeps(old(State()), maxSize, key, val, now, ttl);
      }
      ok := true;
    }

    /** A valid cache can always be upserted into. */
    lemma UpsertAllowed(key: K)
      requires Valid()
      ensures key in data || |data| != maxSize || chronologicalKeys != []
    {
      SizeMatches(State(), maxSize);
    }

    /** Delete: remove the key if it is stored; otherwise nothing happens. */
    method Delete(key: K)
      modifies this
      ensures State() == Remove(old(State()), key)
      ensures old(Valid()) ==> Valid()
    {
      DeleteKeyValue(key);
      if old(Valid()) {
        RemoveKeeps(old(State()), maxSize, key);
      }
    }

    /** addKeyValue: store the entry with expiry `now + ttl` and append the key. */
    method AddKeyValue(key: K, value: V, now: int)
      modifies this
      ensures State() == Add(old(State()), key, value, now + ttl)
    {
      data := data[key := Entry(value, now + ttl)];
      chronologicalKeys := chronologicalKeys + [key];
    }

    /**
     deleteKeyValue: filter the key out of the order, keeping the other keys in
     their order (what `slices.DeleteFunc` does), and delete it from the map.
     */
    method DeleteKeyValue(key: K)
      modifies this
      ensures State() == Remove(old(State()), key)
    {
      var kept: seq<K> := [];
      var i := 0;
      while i < |chronologicalKeys|
        invariant 0 <= i <= |chronologicalKeys|
        invariant kept == Without(chronologicalKeys[..i], key)
      {
        assert chronologicalKeys[..i + 1][..i] == chronologicalKeys[..i];
        if chronologicalKeys[i] != key {
          kept := kept + [chronologicalKeys[i]];
        }
        i := i + 1;
      }
      assert chronologicalKeys[..i] == chronologicalKeys;
      chronologicalKeys := kept;
      data := data - {key};
    }
  }

  /**
   The first half of the scenario of cache_test.go: a cache of capacity 3 and
   ttl one minute, after upserting 1, 2 and 3 at `now`, holds those three keys,
   oldest first.
   */
  method FillClient(now: int) returns (c: Cache<int, int>)
    ensures fresh(c) && c.Valid()
    ensures c.maxSize == 3 && c.ttl == Minute && c.zero == 0
    ensures c.State() == Store(map[1 := Entry(1, now + Minute), 2 := Entry(2, now + Minute), 3 := Entry(3, now + Minute)], [1, 2, 3])
  {
    c := new Cache<int, int>(3, Minute, 0);
    var ok := c.Upsert(1, 1, now);
    ok := c.Upsert(2, 2, now);
    ok := c.Upsert(3, 3, now);
    ScenarioFill(now);
  }

  /**
   The second half of the scenario of cache_test.go: upserting 1 again with 10
   and then 4 into the full cache evicts 2, the oldest key by then.
   */
  method RefillClient(c: Cache<int, int>, now: int)
    requires c.Valid() && c.maxSize == 3 && c.ttl == Minute
    requires c.State() == Store(map[1 := Entry(1, now + Minute), 2 := Entry(2, now + Minute), 3 := Entry(3, now + Minute)], [1, 2, 3])
    modifies c
    ensures c.Valid()
    ensures c.State() == Store(map[3 := Entry(3, now + Minute), 1 := Entry(10, now + Minute), 4 := Entry(4, now + Minute)], [3, 1, 4])
  {
    var ok := c.Upsert(1, 10, now);
    ScenarioReinsert(now);
    ok := c.Upsert(4, 4, now);
    ScenarioEvict(now);
  }

  /**
   The scenario of cache_test.go driven through the object: capacity 3, ttl one
   minute, every call at `now`. After upserting 1, 2 and 3, reading 1 finds 1;
   after upserting 1 again with 10 and then 4, reading 2 misses with the zero
   value 0 (2 was evicted). The last read, of 1, is not in the Go test: it
   shows that the re-inserted key kept its new value 10.
   */
  method MaxSizeClient(now: int) returns (first: int, firstFound: bool, evicted: int, evictedFound: bool, updated: int, updatedFound: bool)
    ensures first == 1 && firstFound
    ensures evicted == 0 && !evictedFound
    ensures updated == 10 && updatedFound
  {
    var c := FillClient(now);
    first, firstFound := c.Read(1, now);
    RefillClient(c, now);
    evicted, evictedFound := c.Read(2, now);
    updated, updatedFound := c.Read(1, now);
  }
}
