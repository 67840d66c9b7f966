/**
 * An LRU cache with a per-entry time-to-live (cache.go).
 *
 * The cache keeps two structures in step: an entry table from key to entry
 * and a recency order of the same keys, most recently used first, together
 * with an entry counter. Time is a nanosecond count passed in as `now`.
 */
module LruCache {
  import opened Wrappers

  type Bytes = seq<bv8>

  /** One cached item (CacheEntry). `expiresAt` is absent for an entry without a TTL. */
  datatype Entry = Entry(
    key: string,
    value: Bytes,
    expiresAt: Option<int>,
    createdAt: int,
    accessCount: nat,
    lastAccessed: int)

  /** An entry with an expiry time is expired strictly after that time. */
  predicate Expired(e: Entry, now: int)
  {
    e.expiresAt.Some? && now > e.expiresAt.value
  }

  /** The key is stored and not expired: what Exists reports and what Get finds. */
  predicate Live(m: map<string, Entry>, key: string, now: int)
  {
    key in m && !Expired(m[key], now)
  }

  /** The entry Set stores: both timestamps `now`, no accesses, expiry `now + ttl` if a TTL is given. */
  function NewEntry(key: string, value: Bytes, ttl: Option<int>, now: int): Entry
  {
    Entry(key, value, if ttl.Some? then Some(now + ttl.value) else None, now, 0, now)
  }

  /** The entry after a successful read: one more access, last accessed `now`. */
  function Touched(e: Entry, now: int): Entry
  {
    e.(accessCount := e.accessCount + 1, lastAccessed := now)
  }

  /** The keys whose entries are expired at `now`. */
  function ExpiredKeys(m: map<string, Entry>, now: int): set<string>
  {
    set k | k in m && Expired(m[k], now)
  }

  /** The part of `m` whose keys are in `ks`. */
  function Restrict(m: map<string, Entry>, ks: set<string>): map<string, Entry>
  {
    map k | k in m && k in ks :: m[k]
  }

  lemma RestrictAll(m: map<string, Entry>, ks: set<string>)
    requires m.Keys <= ks
    ensures Restrict(m, ks) == m
  {
  }

  /** A sweep that removed exactly the expired keys removed ExpiredKeys. */
  lemma SweepComplete(m: map<string, Entry>, dead: set<string>, now: int)
    requires dead <= m.Keys
    requires forall k :: k in dead ==> Expired(m[k], now)
    requires forall k :: k in m && k !in dead ==> !Expired(m[k], now)
    ensures dead == ExpiredKeys(m, now)
  {
  }

  lemma RemoveTwice(m: map<string, Entry>, a: set<string>, b: set<string>)
    ensures (m - a) - b == m - (a + b)
  {
  }

  lemma ReplaceEntry(m: map<string, Entry>, k: string, e: Entry)
    ensures (m - {k})[k := e] == m[k := e]
  {
  }

  lemma RestrictFewer(m: map<string, Entry>, ks: set<string>, k: string)
    ensures Restrict(m, ks) - {k} == Restrict(m, ks - {k})
  {
  }

  // ---------------------------------------------------------------------
  // The recency order as a sequence of keys, front = most recently used.
  // ---------------------------------------------------------------------

  function Elems(s: seq<string>): set<string>
  {
    set x | x in s
  }

  predicate NoDup(s: seq<string>)
  {
    forall i, j :: 0 <= i < j < |s| ==> s[i] != s[j]
  }

  /** Unlinking: `s` without the keys in `dead`, the others in their original order. */
  function Keep(s: seq<string>, dead: set<string>): (r: seq<string>)
    ensures Elems(r) == Elems(s) - dead
    ensures |r| <= |s|
    ensures NoDup(s) ==> NoDup(r)
  {
    if s == [] then []
    else
      var rest := Keep(s[1..], dead);
      assert Elems(s) == {s[0]} + Elems(s[1..]);
      if s[0] in dead then rest
      else
        assert NoDup(s) ==> s[0] !in Elems(s[1..]);
        assert Elems([s[0]] + rest) == {s[0]} + Elems(rest);
        assert NoDup(s) ==> NoDup([s[0]] + rest) by {
          if NoDup(s) { NoDupCons(s[0], rest); }
        }
        [s[0]] + rest
  }

  /** Move `k` to the front (or insert it there), the other keys keeping their order. */
  function Promote(s: seq<string>, k: string): (r: seq<string>)
    ensures |r| > 0 && r[0] == k
    ensures Elems(r) == Elems(s) + {k}
    ensures NoDup(s) ==> NoDup(r)
  {
    var rest := Keep(s, {k});
    assert Elems([k] + rest) == {k} + Elems(rest);
    assert NoDup(s) ==> NoDup([k] + rest) by {
      if NoDup(s) { NoDupCons(k, rest); }
    }
    [k] + rest
  }

  /** What the eviction loop leaves: the `maxSize` most recent keys, none when `maxSize <= 0`. */
  function EvictToCapacity(s: seq<string>, maxSize: int): (r: seq<string>)
    ensures |r| <= |s| && r == s[..|r|]
    ensures |r| <= maxSize || r == []
    ensures |s| <= maxSize ==> r == s
    ensures 0 <= maxSize < |s| ==> |r| == maxSize
  {
    if maxSize <= 0 then [] else if |s| <= maxSize then s else s[..maxSize]
  }

  lemma PrefixOfPrefix(s: seq<string>, n: nat, m: nat)
    requires m <= n <= |s|
    ensures s[..n][..m] == s[..m]
  {
  }

  /** When the eviction loop stops, what is left is the front of the order up to capacity. */
  lemma EvictionStops(s: seq<string>, r: seq<string>, maxSize: int)
    requires |r| <= |s| && r == s[..|r|]
    requires |r| == |s| || |r| >= maxSize
    requires !(|r| > maxSize && |r| > 0)
    ensures r == EvictToCapacity(s, maxSize)
  {
  }

  lemma NoDupCons(x: string, t: seq<string>)
    requires NoDup(t) && x !in Elems(t)
    ensures NoDup([x] + t)
  {
    forall i, j | 0 <= i < j < |[x] + t| ensures ([x] + t)[i] != ([x] + t)[j] {
      if i == 0 {
        assert ([x] + t)[j] == t[j - 1];
        assert t[j - 1] in Elems(t);
      }
    }
  }

  lemma {:induction false} DistinctCard(s: seq<string>)
    requires NoDup(s)
    ensures |Elems(s)| == |s|
  {
    if s != [] {
      assert Elems(s) == {s[0]} + Elems(s[1..]);
      assert s[0] !in Elems(s[1..]);
      DistinctCard(s[1..]);
    }
  }

  /** Unlinking keys that are not in the order changes nothing. */
  lemma {:induction false} KeepAbsent(s: seq<string>, dead: set<string>)
    requires Elems(s) !! dead
    ensures Keep(s, dead) == s
  {
    if s != [] {
      assert Elems(s) == {s[0]} + Elems(s[1..]);
      KeepAbsent(s[1..], dead);
    }
  }

  /** Unlinking the back key of a duplicate-free order drops exactly the last position. */
  lemma {:induction false} KeepBack(s: seq<string>)
    requires NoDup(s) && s != []
    ensures Keep(s, {s[|s| - 1]}) == s[..|s| - 1]
  {
    if |s| > 1 {
      assert s[0] != s[|s| - 1];
      assert s[1..][|s[1..]| - 1] == s[|s| - 1];
      KeepBack(s[1..]);
      assert s[..|s| - 1] == [s[0]] + s[1..][..|s[1..]| - 1];
    }
  }

  /** Unlinking in two rounds is unlinking once. */
  lemma {:induction false} KeepKeep(s: seq<string>, a: set<string>, b: set<string>)
    ensures Keep(Keep(s, a), b) == Keep(s, a + b)
  {
    if s != [] {
      KeepKeep(s[1..], a, b);
      if s[0] !in a {
        assert Keep(s, a)[1..] == Keep(s[1..], a);
      }
    }
  }

  /** Unlinking one stored key shortens a duplicate-free order by exactly one. */
  lemma RemovedLength(s: seq<string>, k: string)
    requires NoDup(s) && k in Elems(s)
    ensures |Keep(s, {k})| == |s| - 1
  {
    DistinctCard(s);
    DistinctCard(Keep(s, {k}));
  }

  // ---------------------------------------------------------------------
  // The invariant tying the table, the recency order and the counter
  // ---------------------------------------------------------------------

  /**
   * Every stored key is in the order and vice versa, once each; the counter is
   * the length of the order (and so the size of the table, by CoherentSize).
   */
  ghost predicate Coherent(data: map<string, Entry>, lru: seq<string>, size: int)
  {
    && data.Keys == Elems(lru)
    && NoDup(lru)
    && size == |lru|
    && forall k :: k in data ==> data[k].key == k
  }

  /** The counter, the table and the recency order all have the same size. */
  lemma CoherentSize(data: map<string, Entry>, lru: seq<string>, size: int)
    requires Coherent(data, lru, size)
    ensures |data| == size == |lru|
  {
    DistinctCard(lru);
    assert |data.Keys| == |data|;
  }

  /** Linking a new key at the front and storing its entry keeps the structures coherent. */
  lemma CoherentInsert(data: map<string, Entry>, lru: seq<string>, size: int, key: string, e: Entry)
    requires Coherent(data, lru, size) && key !in data && e.key == key
    ensures Coherent(data[key := e], [key] + lru, size + 1)
  {
    var l := [key] + lru;
    assert NoDup(l) by { NoDupCons(key, lru); }
    assert Elems(l) == {key} + Elems(lru);
  }

  /** Unlinking a stored key from both structures keeps them coherent. */
  lemma CoherentRemove(data: map<string, Entry>, lru: seq<string>, size: int, key: string)
    requires Coherent(data, lru, size) && key in data
    ensures Coherent(data - {key}, Keep(lru, {key}), size - 1)
  {
    RemovedLength(lru, key);
  }

  /** Unlinking any set of stored keys from both structures keeps them coherent. */
  lemma CoherentSweep(data: map<string, Entry>, lru: seq<string>, size: int, dead: set<string>)
    requires Coherent(data, lru, size) && dead <= data.Keys
    ensures Coherent(data - dead, Keep(lru, dead), size - |dead|)
  {
    var kept := Keep(lru, dead);
    DistinctCard(lru);
    DistinctCard(kept);
    assert Elems(lru) == Elems(kept) + dead && Elems(kept) !! dead;
  }

  /**
   * The state part-way through Cleanup's sweep of a table that started as `d0`
   * (order `l0`, counter `n0`): the keys in `dead` were visited and found
   * expired and have been unlinked; the other visited keys were not expired.
   */
  ghost predicate Sweeping(d0: map<string, Entry>, l0: seq<string>, n0: int, now: int,
                           pending: set<string>, dead: set<string>,
                           data: map<string, Entry>, lru: seq<string>, size: int)
  {
    && pending <= d0.Keys && dead <= d0.Keys && dead !! pending
    && (forall k :: k in dead ==> Expired(d0[k], now))
    && (forall k :: k in d0 && k !in pending && k !in dead ==> !Expired(d0[k], now))
    && data == d0 - dead && lru == Keep(l0, dead) && size == n0 - |dead|
  }

  lemma SweepStart(data: map<string, Entry>, lru: seq<string>, size: int, now: int)
    ensures Sweeping(data, lru, size, now, data.Keys, {}, data, lru, size)
  {
    KeepAbsent(lru, {});
    RemoveTwice(data, {}, {});
  }

  /** A key visited by the sweep is still stored with its original entry. */
  lemma SweepPending(d0: map<string, Entry>, l0: seq<string>, n0: int, now: int,
                     pending: set<string>, dead: set<string>,
                     data: map<string, Entry>, lru: seq<string>, size: int, key: string)
    requires Sweeping(d0, l0, n0, now, pending, dead, data, lru, size) && key in pending
    ensures key in data && data[key] == d0[key]
  {
  }

  /** Visiting one pending key, and removing it exactly when it has expired, keeps the sweep's bookkeeping. */
  lemma SweepStep(d0: map<string, Entry>, l0: seq<string>, n0: int, now: int,
                  pending: set<string>, dead: set<string>,
                  data: map<string, Entry>, lru: seq<string>, size: int, key: string,
                  dead': set<string>, data': map<string, Entry>, lru': seq<string>, size': int)
    requires Sweeping(d0, l0, n0, now, pending, dead, data, lru, size) && key in pending
    requires Expired(d0[key], now) ==>
               dead' == dead + {key} && data' == data - {key} && lru' == Keep(lru, {key}) && size' == size - 1
    requires !Expired(d0[key], now) ==> dead' == dead && data' == data && lru' == lru && size' == size
    ensures Sweeping(d0, l0, n0, now, pending - {key}, dead', data', lru', size')
  {
    if Expired(d0[key], now) {
      KeepKeep(l0, dead, {key});
      RemoveTwice(d0, dead, {key});
    }
  }

  /** When every key has been visited, exactly the expired keys are gone and the structures are coherent. */
  lemma SweepDone(d0: map<string, Entry>, l0: seq<string>, n0: int, now: int,
                  dead: set<string>, data: map<string, Entry>, lru: seq<string>, size: int)
    requires Coherent(d0, l0, n0)
    requires Sweeping(d0, l0, n0, now, {}, dead, data, lru, size)
    ensures Coherent(data, lru, size)
    ensures dead == ExpiredKeys(d0, now)
    ensures forall k :: k in data ==> !Expired(data[k], now)
  {
    CoherentSweep(d0, l0, n0, dead);
    SweepComplete(d0, dead, now);
  }

  /** Refreshing a stored key's entry and moving it to the front keeps the structures coherent. */
  lemma CoherentPromote(data: map<string, Entry>, lru: seq<string>, size: int, key: string, e: Entry)
    requires Coherent(data, lru, size) && key in data && e.key == key
    ensures Coherent(data[key := e], Promote(lru, key), size)
  {
    RemovedLength(lru, key);
  }

  // ---------------------------------------------------------------------
  // Statistics
  // ---------------------------------------------------------------------

  /** Sum of the access counts. */
  function TotalAccesses(es: seq<Entry>): nat
  {
    if es == [] then 0 else TotalAccesses(es[..|es| - 1]) + es[|es| - 1].accessCount
  }

  /** Sum of the value lengths in bytes. */
  function TotalBytes(es: seq<Entry>): nat
  {
    if es == [] then 0 else TotalBytes(es[..|es| - 1]) + |es[|es| - 1].value|
  }

  /** Number of entries that have been read at least once. */
  function AccessedCount(es: seq<Entry>): nat
  {
    if es == [] then 0
    else AccessedCount(es[..|es| - 1]) + (if es[|es| - 1].accessCount > 0 then 1 else 0)
  }

  /** At most every entry has been read, and some entry has if any access was counted. */
  lemma {:induction false} AccessedCountBounds(es: seq<Entry>)
    ensures AccessedCount(es) <= |es|
    ensures TotalAccesses(es) > 0 <==> AccessedCount(es) > 0
  {
    if es != [] {
      AccessedCountBounds(es[..|es| - 1]);
    }
  }

  /** A fraction `num / den`; the hit rate 0.0 is `Ratio(0, 1)`. */
  datatype Ratio = Ratio(num: nat, den: nat)

  datatype CacheStats = CacheStats(
    totalKeys: nat,
    maxSize: int,
    currentSize: int,
    totalAccesses: nat,
    totalSizeBytes: nat,
    hitRate: Ratio)

  // ---------------------------------------------------------------------
  // The cache
  // ---------------------------------------------------------------------

  class Cache {
    var data: map<string, Entry>
    var lru: seq<string>
    var maxSize: int
    var currentSize: int

    /** Table and recency order hold the same keys, each once; the counter matches both. */
    ghost predicate Consistent()
      reads this
    {
      Coherent(data, lru, currentSize)
    }

    /** Consistent, and within capacity unless empty: holds between any two operations. */
    ghost predicate Valid()
      reads this
    {
      Consistent() && (|lru| <= maxSize || lru == [])
    }

    /**
     * The stored entries listed in recency order, as many as the table holds;
     * EntriesCoverTable shows that every stored entry is among them.
     */
    ghost function Entries(): (es: seq<Entry>)
      reads this
      requires Consistent()
      ensures |es| == |lru| == |data|
      ensures forall i :: 0 <= i < |lru| ==> es[i] == data[lru[i]]
    {
      var d, l := data, lru;
      CoherentSize(d, l, currentSize);
      seq(|l|, i requires 0 <= i < |l| && l[i] in d => d[l[i]])
    }

    /** Every stored entry appears in Entries, at the position of its key in the order. */
    lemma EntriesCoverTable()
      requires Consistent()
      ensures forall k :: k in data ==>
                exists i :: 0 <= i < |Entries()| && lru[i] == k && Entries()[i] == data[k]
    {
      var es := Entries();
      forall k | k in data
        ensures exists i :: 0 <= i < |es| && lru[i] == k && es[i] == data[k]
      {
        assert k in Elems(lru);
        var i :| 0 <= i < |lru| && lru[i] == k;
        assert es[i] == data[k];
      }
    }

    /** NewCache: an empty cache; any `maxSize` is accepted. */
    constructor (maxSize: int)
      ensures Valid()
      ensures this.maxSize == maxSize && data == map[] && lru == [] && currentSize == 0
    {
      this.maxSize := maxSize;
      data := map[];
      lru := [];
      currentSize := 0;
    }

    /** removeEntry: unlink a stored key from both structures and decrement the counter. */
    method RemoveEntry(key: string)
      requires key in data
      modifies this
      ensures maxSize == old(maxSize)
      ensures data == old(data) - {key} && lru == Keep(old(lru), {key})
      ensures currentSize == old(currentSize) - 1
    {
      lru := Keep(lru, {key});
      data := data - {key};
      currentSize := currentSize - 1;
    }

    /** Link a new entry at the front of the order and store it in the table. */
    method PushFront(entry: Entry)
      requires Consistent() && entry.key !in data
      modifies this
      ensures Consistent() && maxSize == old(maxSize)
      ensures data == old(data)[entry.key := entry] && lru == [entry.key] + old(lru)
    {
      CoherentInsert(data, lru, currentSize, entry.key, entry);
      lru := [entry.key] + lru;
      data := data[entry.key := entry];
      currentSize := currentSize + 1;
    }

    /** evictLRU: remove the least recently used key (the back of the order), if any. */
    method EvictLRU()
      requires Consistent()
      modifies this
      ensures Consistent() && maxSize == old(maxSize)
      ensures old(lru) == [] ==> data == old(data) && lru == old(lru)
      ensures old(lru) != [] ==>
                && lru == old(lru)[..|old(lru)| - 1]
                && data == old(data) - {old(lru)[|old(lru)| - 1]}
    {
      if |lru| > 0 {
        var back := lru[|lru| - 1];
        KeepBack(lru);
        CoherentRemove(data, lru, currentSize, back);
        RemoveEntry(back);
      }
    }

    /**
     * Get: a missing key is a miss; an expired entry is removed and is a miss;
     * otherwise the entry is read, counted and moved to the front.
     */
    method Get(key: string, now: int) returns (r: Option<Bytes>)
      requires Valid()
      modifies this
      ensures Valid() && maxSize == old(maxSize)
      ensures r.Some? <==> Live(old(data), key, now)
      ensures key !in old(data) ==> data == old(data) && lru == old(lru)
      ensures key in old(data) && Expired(old(data)[key], now) ==>
                data == old(data) - {key} && lru == Keep(old(lru), {key})
      ensures Live(old(data), key, now) ==>
                && r.value == old(data)[key].value
                && data == old(data)[key := Touched(old(data)[key], now)]
                && lru == Promote(old(lru), key)
    {
      if key !in data {
        return None;
      }
      var entry := data[key];
      if Expired(entry, now) {
        CoherentRemove(data, lru, currentSize, key);
        RemoveEntry(key);
        return None;
      }
      CoherentPromote(data, lru, currentSize, key, Touched(entry, now));
      data := data[key := Touched(entry, now)];
      lru := Promote(lru, key);
      r := Some(entry.value);
    }

    /**
     * Set: replace any entry for `key` by a fresh one at the front, then evict
     * from the back while the cache is over capacity.
     */
    method Set(key: string, value: Bytes, ttl: Option<int>, now: int)
      requires Valid()
      modifies this
      ensures Valid() && maxSize == old(maxSize)
      ensures lru == EvictToCapacity(Promote(old(lru), key), maxSize)
      ensures data == Restrict(old(data)[key := NewEntry(key, value, ttl, now)], Elems(lru))
      ensures maxSize >= 1 ==>
                && lru[0] == key && key in data
                && data[key].value == value
                && data[key].accessCount == 0
                && data[key].createdAt == now && data[key].lastAccessed == now
                && data[key].expiresAt == (if ttl.Some? then Some(now + ttl.value) else None)
      ensures maxSize <= 0 ==> data == map[] && lru == []
    {
      if key in data {
        CoherentRemove(data, lru, currentSize, key);
        RemoveEntry(key);
      } else {
        KeepAbsent(lru, {key});
      }
      assert data == old(data) - {key} && lru == Keep(old(lru), {key});
      var entry := NewEntry(key, value, ttl, now);
      PushFront(entry);
      ReplaceEntry(old(data), key, entry);
      EvictOverCapacity();
      if maxSize >= 1 {
        assert key == lru[0] && key in Elems(lru);
      }
    }

    /** The eviction loop of Set: evict from the back while over capacity and not empty. */
    method EvictOverCapacity()
      requires Consistent()
      modifies this
      ensures Valid() && maxSize == old(maxSize)
      ensures lru == EvictToCapacity(old(lru), maxSize)
      ensures data == Restrict(old(data), Elems(lru))
    {
      ghost var l0, d0 := lru, data;
      RestrictAll(d0, Elems(lru));
      while currentSize > maxSize && |lru| > 0
        invariant Consistent() && maxSize == old(maxSize)
        invariant |lru| <= |l0| && lru == l0[..|lru|]
        invariant |lru| == |l0| || |lru| >= maxSize
        invariant data == Restrict(d0, Elems(lru))
        decreases |lru|
      {
        ghost var before := lru;
        EvictLRU();
        assert Elems(lru) == Elems(before) - {before[|before| - 1]} by {
          KeepBack(before);
        }
        RestrictFewer(d0, Elems(before), before[|before| - 1]);
        assert lru == l0[..|lru|] by {
          assert lru == before[..|before| - 1];
          PrefixOfPrefix(l0, |before|, |lru|);
        }
      }
      EvictionStops(l0, lru, maxSize);
    }

    /** Delete: remove the key whether or not it has expired; report whether it was stored. */
    method Delete(key: string) returns (removed: bool)
      requires Valid()
      modifies this
      ensures Valid() && maxSize == old(maxSize)
      ensures removed <==> key in old(data)
      ensures data == old(data) - {key} && lru == Keep(old(lru), {key})
    {
      if key in data {
        CoherentRemove(data, lru, currentSize, key);
        RemoveEntry(key);
        return true;
      }
      KeepAbsent(lru, {key});
      return false;
    }

    /** Exists: a read-only check; an expired entry that is still stored reports false. */
    method Exists(key: string, now: int) returns (b: bool)
      ensures b <==> Live(data, key, now)
    {
      if key !in data {
        return false;
      }
      var entry := data[key];
      if entry.expiresAt.Some? && now > entry.expiresAt.value {
        return false;
      }
      return true;
    }

    /** Clear: discard every entry; the capacity is kept. */
    method Clear()
      modifies this
      ensures Valid()
      ensures data == map[] && lru == [] && currentSize == 0 && maxSize == old(maxSize)
    {
      data := map[];
      lru := [];
      currentSize := 0;
    }

    /**
     * Cleanup: visit every stored key once, in no particular order, and remove
     * the expired ones; return how many were removed.
     */
    method Cleanup(now: int) returns (expired: nat)
      requires Valid()
      modifies this
      ensures Valid() && maxSize == old(maxSize)
      ensures expired == |ExpiredKeys(old(data), now)|
      ensures data == old(data) - ExpiredKeys(old(data), now)
      ensures lru == Keep(old(lru), ExpiredKeys(old(data), now))
      ensures forall k :: k in data ==> !Expired(data[k], now)
    {
      ghost var d0, l0, n0 := data, lru, currentSize;
      var pending := data.Keys;
      ghost var dead: set<string> := {};
      SweepStart(data, lru, currentSize, now);
      expired := 0;
      while pending != {}
        invariant maxSize == old(maxSize) && expired == |dead|
        invariant Sweeping(d0, l0, n0, now, pending, dead, data, lru, currentSize)
        decreases |pending|
      {
        var key :| key in pending;
        SweepPending(d0, l0, n0, now, pending, dead, data, lru, currentSize, key);
        ghost var dead0, data0, lru0, size0 := dead, data, lru, currentSize;
        var entry := data[key];
        if entry.expiresAt.Some? && now > entry.expiresAt.value {
          RemoveEntry(key);
          dead := dead + {key};
          expired := expired + 1;
        }
        SweepStep(d0, l0, n0, now, pending, dead0, data0, lru0, size0, key,
                  dead, data, lru, currentSize);
        pending := pending - {key};
      }
      SweepDone(d0, l0, n0, now, dead, data, lru, currentSize);
    }

    /** calculateHitRate: entries read at least once over stored entries; 0 when nothing was read. */
    method CalculateHitRate() returns (r: Ratio)
      requires Consistent()
      ensures r.den > 0 && r.num <= r.den
      ensures TotalAccesses(Entries()) == 0 ==> r == Ratio(0, 1)
      ensures TotalAccesses(Entries()) > 0 ==> r == Ratio(AccessedCount(Entries()), |data|)
    {
      ghost var es := Entries();
      var totalRequests: nat := 0;
      var totalHits: nat := 0;
      for i := 0 to |lru|
        invariant totalRequests == TotalAccesses(es[..i])
        invariant totalHits == AccessedCount(es[..i])
      {
        assert es[..i + 1][..i] == es[..i];
        var entry := data[lru[i]];
        totalRequests := totalRequests + entry.accessCount;
        if entry.accessCount > 0 {
          totalHits := totalHits + 1;
        }
      }
      assert es[..|lru|] == es;
      AccessedCountBounds(es);
      CoherentSize(data, lru, currentSize);
      if totalRequests == 0 {
        return Ratio(0, 1);
      }
      return Ratio(totalHits, |data|);
    }

    /** Stats: a read-only snapshot of counts and totals. */
    method Stats() returns (s: CacheStats)
      requires Consistent()
      ensures s.totalKeys == |data| && s.maxSize == maxSize && s.currentSize == currentSize
      ensures s.totalAccesses == TotalAccesses(Entries())
      ensures s.totalSizeBytes == TotalBytes(Entries())
      ensures s.hitRate.den > 0 && s.hitRate.num <= s.hitRate.den
      ensures TotalAccesses(Entries()) == 0 ==> s.hitRate == Ratio(0, 1)
      ensures TotalAccesses(Entries()) > 0 ==> s.hitRate == Ratio(AccessedCount(Entries()), |data|)
    {
      ghost var es := Entries();
      var totalAccesses: nat := 0;
      var totalSize: nat := 0;
      for i := 0 to |lru|
        invariant totalAccesses == TotalAccesses(es[..i])
        invariant totalSize == TotalBytes(es[..i])
      {
        assert es[..i + 1][..i] == es[..i];
        var entry := data[lru[i]];
        totalAccesses := totalAccesses + entry.accessCount;
        totalSize := totalSize + |entry.value|;
      }
      assert es[..|lru|] == es;
      var hitRate := CalculateHitRate();
      s := CacheStats(|data|, maxSize, currentSize, totalAccesses, totalSize, hitRate);
    }
  }
}
