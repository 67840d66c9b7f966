/**
 * Properties of the recency order over several operations: how a run of Sets
 * fills and then evicts, and what a read does to the order of the other keys.
 * The class Cache states one step of each operation; these lemmas compose
 * those steps on the order (a sequence of keys, most recently used first).
 */
module CacheProperties {
  import opened Wrappers
  import opened LruCache

  /** The order after a Set of `k` into a cache of capacity `maxSize` (see Cache.Set). */
  function AfterSet(l: seq<string>, k: string, maxSize: int): seq<string>
  {
    EvictToCapacity(Promote(l, k), maxSize)
  }

  /** The order after Set of each key of `keys` in turn. */
  function AfterSets(l: seq<string>, keys: seq<string>, maxSize: int): seq<string>
    decreases |keys|
  {
    if keys == [] then l else AfterSets(AfterSet(l, keys[0], maxSize), keys[1..], maxSize)
  }

  function Reverse(s: seq<string>): (r: seq<string>)
    ensures |r| == |s|
  {
    if s == [] then [] else Reverse(s[1..]) + [s[0]]
  }

  // ---------------------------------------------------------------------
  // Sequence facts
  // ---------------------------------------------------------------------

  lemma KeepCons(x: string, t: seq<string>, dead: set<string>)
    ensures Keep([x] + t, dead) == if x in dead then Keep(t, dead) else [x] + Keep(t, dead)
  {
    assert ([x] + t)[1..] == t;
  }

  lemma {:induction false} ReverseSnoc(s: seq<string>, x: string)
    ensures Reverse(s + [x]) == [x] + Reverse(s)
  {
    if s != [] {
      assert (s + [x])[1..] == s[1..] + [x];
      ReverseSnoc(s[1..], x);
    }
  }

  lemma {:induction false} ReverseElems(s: seq<string>)
    ensures Elems(Reverse(s)) == Elems(s)
  {
    if s != [] {
      ReverseElems(s[1..]);
      assert Elems(s) == Elems(s[1..]) + {s[0]};
    }
  }

  lemma {:induction false} AfterSetsAppend(l: seq<string>, a: seq<string>, b: seq<string>, maxSize: int)
    ensures AfterSets(l, a + b, maxSize) == AfterSets(AfterSets(l, a, maxSize), b, maxSize)
    decreases |a|
  {
    if a != [] {
      assert (a + b)[0] == a[0] && (a + b)[1..] == a[1..] + b;
      AfterSetsAppend(AfterSet(l, a[0], maxSize), a[1..], b, maxSize);
    } else {
      assert a + b == b;
    }
  }

  // ---------------------------------------------------------------------
  // Filling and evicting
  // ---------------------------------------------------------------------

  /**
   * Setting new, distinct keys while the capacity is not exceeded evicts
   * nothing: each new key goes in front of the previous ones.
   */
  lemma {:induction false} FillWithoutEviction(l: seq<string>, keys: seq<string>, maxSize: int)
    requires NoDup(keys) && Elems(keys) !! Elems(l)
    requires |keys| + |l| <= maxSize
    ensures AfterSets(l, keys, maxSize) == Reverse(keys) + l
    decreases |keys|
  {
    if keys != [] {
      var k, rest := keys[0], keys[1..];
      FrontKeyIsNew(l, keys);
      SetNewWithRoom(l, k, maxSize);
      FillWithoutEviction([k] + l, rest, maxSize);
      ReverseFront(keys, l);
    }
  }

  /** The first of distinct new keys is not yet stored, and the others are new to the order once it is. */
  lemma FrontKeyIsNew(l: seq<string>, keys: seq<string>)
    requires NoDup(keys) && Elems(keys) !! Elems(l) && keys != []
    ensures keys[0] !in Elems(l)
    ensures NoDup(keys[1..]) && Elems(keys[1..]) !! Elems([keys[0]] + l)
  {
    assert Elems(keys) == {keys[0]} + Elems(keys[1..]);
    assert Elems([keys[0]] + l) == {keys[0]} + Elems(l);
    NoDupTail(keys);
  }

  lemma ReverseFront(keys: seq<string>, l: seq<string>)
    requires keys != []
    ensures Reverse(keys[1..]) + ([keys[0]] + l) == Reverse(keys) + l
  {
    assert Reverse(keys) == Reverse(keys[1..]) + [keys[0]];
    AppendAssoc(Reverse(keys[1..]), [keys[0]], l);
  }

  lemma AppendAssoc(a: seq<string>, b: seq<string>, c: seq<string>)
    ensures (a + b) + c == a + (b + c)
  {
  }

  lemma NoDupTail(s: seq<string>)
    requires NoDup(s) && s != []
    ensures NoDup(s[1..]) && s[0] !in Elems(s[1..])
  {
    forall i, j | 0 <= i < j < |s[1..]| ensures s[1..][i] != s[1..][j] {
      assert s[1..][i] == s[i + 1] && s[1..][j] == s[j + 1];
    }
  }

  /** Set of a new key with room to spare evicts nothing: the key goes in front. */
  lemma SetNewWithRoom(l: seq<string>, k: string, maxSize: int)
    requires k !in Elems(l) && |l| < maxSize
    ensures AfterSet(l, k, maxSize) == [k] + l
  {
    KeepAbsent(l, {k});
  }

  /** Set of a new key into a full cache evicts exactly the back key. */
  lemma SetIntoFull(full: seq<string>, k: string, maxSize: int)
    requires maxSize >= 1 && |full| == maxSize && k !in Elems(full)
    ensures AfterSet(full, k, maxSize) == [k] + full[..maxSize - 1]
  {
    KeepAbsent(full, {k});
    assert ([k] + full)[..maxSize] == [k] + full[..maxSize - 1];
  }

  lemma ReverseDropLast(s: seq<string>)
    requires s != []
    ensures Reverse(s)[..|s| - 1] == Reverse(s[1..])
  {
    assert Reverse(s) == Reverse(s[1..]) + [s[0]];
  }

  /**
   * Eviction takes the least recently used key: on an empty cache of capacity
   * `maxSize >= 1`, Set of `maxSize + 1` distinct keys leaves every key but
   * the first one inserted, the newest first.
   */
  lemma LruEvictsFirstInserted(keys: seq<string>, maxSize: int)
    requires maxSize >= 1 && |keys| == maxSize + 1 && NoDup(keys)
    ensures AfterSets([], keys, maxSize) == Reverse(keys[1..])
    ensures keys[0] !in Elems(AfterSets([], keys, maxSize))
    ensures forall i :: 1 <= i < |keys| ==> keys[i] in Elems(AfterSets([], keys, maxSize))
  {
    var first, last := keys[..maxSize], keys[maxSize];
    assert keys == first + [last];
    assert last !in Elems(first) by {
      assert Elems(keys) == Elems(first) + {last};
    }
    AfterSetsAppend([], first, [last], maxSize);
    FillWithoutEviction([], first, maxSize);
    var full := Reverse(first);
    assert AfterSets([], first, maxSize) == full by {
      assert full + [] == full;
    }
    ReverseElems(first);
    SetIntoFull(full, last, maxSize);
    ReverseDropLast(first);
    assert first[1..] == keys[1..maxSize];
    ReverseSnoc(keys[1..maxSize], last);
    assert keys[1..] == keys[1..maxSize] + [last];
    assert AfterSets([], keys, maxSize) == Reverse(keys[1..]);
    Survivors(keys);
  }

  /** Of a duplicate-free sequence, the tail holds every key but the first. */
  lemma Survivors(keys: seq<string>)
    requires NoDup(keys) && keys != []
    ensures keys[0] !in Elems(Reverse(keys[1..]))
    ensures forall i :: 1 <= i < |keys| ==> keys[i] in Elems(Reverse(keys[1..]))
  {
    ReverseElems(keys[1..]);
    forall i | 1 <= i < |keys| ensures keys[i] in Elems(keys[1..]) {
      assert keys[i] == keys[1..][i - 1];
    }
  }

  /** Set of each key of `keys` in turn, with one value, TTL and clock reading: the order follows AfterSets. */
  method SetAll(c: Cache, keys: seq<string>, value: Bytes, ttl: Option<int>, now: int)
    requires c.Valid()
    modifies c
    ensures c.Valid() && c.maxSize == old(c.maxSize)
    ensures c.lru == AfterSets(old(c.lru), keys, c.maxSize)
  {
    ghost var l0 := c.lru;
    for i := 0 to |keys|
      invariant c.Valid() && c.maxSize == old(c.maxSize)
      invariant c.lru == AfterSets(l0, keys[..i], c.maxSize)
    {
      AfterSetsAppend(l0, keys[..i], [keys[i]], c.maxSize);
      assert keys[..i + 1] == keys[..i] + [keys[i]];
      c.Set(keys[i], value, ttl, now);
    }
    assert keys[..|keys|] == keys;
  }

  /**
   * The eviction scenario on the cache itself: a new cache of capacity
   * `maxSize >= 1` given `maxSize + 1` distinct keys no longer stores the first
   * one and stores all the others.
   */
  method FillAndOverflow(keys: seq<string>, value: Bytes, ttl: Option<int>, now: int, maxSize: int)
    returns (c: Cache)
    requires maxSize >= 1 && |keys| == maxSize + 1 && NoDup(keys)
    ensures fresh(c) && c.Valid() && c.maxSize == maxSize
    ensures c.lru == Reverse(keys[1..])
    ensures keys[0] !in c.data
    ensures forall i :: 1 <= i < |keys| ==> keys[i] in c.data
  {
    c := new Cache(maxSize);
    SetAll(c, keys, value, ttl, now);
    LruEvictsFirstInserted(keys, maxSize);
  }

  // ---------------------------------------------------------------------
  // Reads
  // ---------------------------------------------------------------------

  /** A hit moves the key to the front and leaves the other keys in their order. */
  lemma PromoteKeepsOthers(l: seq<string>, k: string)
    ensures Promote(l, k) == [k] + Keep(l, {k})
    ensures Keep(Promote(l, k), {k}) == Keep(l, {k})
  {
    KeepCons(k, Keep(l, {k}), {k});
    KeepKeep(l, {k}, {k});
    assert {k} + {k} == {k};
  }

  /** With capacity two or more, the key just read survives the next Set of another key. */
  lemma HitSurvivesNextSet(l: seq<string>, k: string, other: string, maxSize: int)
    requires maxSize >= 2 && other != k
    ensures k in Elems(AfterSet(Promote(l, k), other, maxSize))
  {
    PromoteKeepsOthers(l, k);
    KeepCons(k, Keep(l, {k}), {other});
    var r := AfterSet(Promote(l, k), other, maxSize);
    assert Promote(Promote(l, k), other)[1] == k;
    assert r[1] == k;
  }

  // ---------------------------------------------------------------------
  // Deletes
  // ---------------------------------------------------------------------

  /** Delete reports whether the key was stored; deleting it again reports false and changes nothing. */
  method DeleteTwice(c: Cache, key: string) returns (first: bool, second: bool)
    requires c.Valid()
    modifies c
    ensures c.Valid()
    ensures first <==> key in old(c.data)
    ensures !second && key !in c.data
    ensures c.data == old(c.data) - {key} && c.lru == Keep(old(c.lru), {key})
  {
    first := c.Delete(key);
    second := c.Delete(key);
    KeepKeep(old(c.lru), {key}, {key});
    assert {key} + {key} == {key};
  }
}
