/** The abstract state of the LRU cache and what `get` and `put` do to it.
    `order` lists the cached keys from the most recently used (front, the
    list's head) to the least recently used (back, the list's tail, the next
    eviction victim); `store` is the key-to-value index. */
module LruModel {
  import opened Recency

  /** What `get` returns for a key that is not cached. */
  const Miss := -1

  datatype Cache = Cache(capacity: int, order: seq<int>, store: map<int, int>)

  /** The representation invariant: the index and the recency list hold the
      same keys, each key once, and never more than `capacity` of them. */
  ghost predicate Valid(c: Cache)
  {
    && c.capacity >= 1
    && NoDup(c.order)
    && |c.order| == |c.store| <= c.capacity
    && (forall i :: 0 <= i < |c.order| ==> c.order[i] in c.store)
    && (forall k :: k in c.store ==> k in c.order)
  }

  /** A freshly constructed cache. */
  function Empty(capacity: int): (c: Cache)
    requires capacity >= 1
    ensures Valid(c) && c.store == map[]
  {
    Cache(capacity, [], map[])
  }

  /** Unlink `k` and reinsert it at the front. */
  function Touch(order: seq<int>, k: int): (r: seq<int>)
    ensures |r| >= 1 && r[0] == k
    ensures forall x :: x in r <==> x in order || x == k
  {
    [k] + Remove(order, k)
  }

  /** `get`: the stored value and the key moved to the front on a hit,
      `Miss` and no change on a miss. */
  function Get(c: Cache, key: int): (r: (int, Cache))
    ensures r.1.store == c.store && r.1.capacity == c.capacity
    ensures key in c.store ==> r.0 == c.store[key] && |r.1.order| >= 1 && r.1.order[0] == key
  {
    if key !in c.store then (Miss, c)
    else (c.store[key], c.(order := Touch(c.order, key)))
  }

  /** `put`: overwrite and move to the front an existing key; otherwise evict
      the back of the order when full, then insert the new key at the front. */
  function Put(c: Cache, key: int, value: int): (r: Cache)
    requires Valid(c)
    ensures r.capacity == c.capacity
    ensures key in r.store && r.store[key] == value && |r.order| >= 1 && r.order[0] == key
    ensures forall k :: k in r.store ==> k == key || k in c.store
  {
    if key in c.store then
      c.(order := Touch(c.order, key), store := c.store[key := value])
    else if |c.store| == c.capacity then
      var victim := c.order[|c.order| - 1];
      c.(order := [key] + c.order[..|c.order| - 1],
         store := (c.store - {victim})[key := value])
    else
      c.(order := [key] + c.order, store := c.store[key := value])
  }

  /** The (key, value) pairs of the recency list, front to back. */
  function Snapshot(order: seq<int>, store: map<int, int>): (r: seq<(int, int)>)
    requires forall i :: 0 <= i < |order| ==> order[i] in store
    ensures |r| == |order|
    ensures forall i :: 0 <= i < |r| ==> r[i] == (order[i], store[order[i]])
  {
    if order == [] then []
    else [(order[0], store[order[0]])] + Snapshot(order[1..], store)
  }

  /** Move-to-front keeps a valid key sequence valid and is the unlinking of
      the key's single position followed by insertion at the front. */
  lemma TouchAt(order: seq<int>, i: int)
    requires NoDup(order) && 0 <= i < |order|
    ensures Touch(order, order[i]) == [order[i]] + order[..i] + order[i + 1..]
    ensures NoDup(Touch(order, order[i])) && |Touch(order, order[i])| == |order|
    ensures forall x :: x in Touch(order, order[i]) <==> x in order
  {
    RemoveAt(order, i);
    RemoveAtNoDup(order, i);
  }

  /** Position of a key in a valid cache's order. */
  lemma IndexOf(c: Cache, k: int) returns (i: int)
    requires Valid(c) && k in c.store
    ensures 0 <= i < |c.order| && c.order[i] == k
  {
    assert k in c.order;
    i :| 0 <= i < |c.order| && c.order[i] == k;
  }

  /** Removing a present key shrinks a map by exactly one. */
  lemma RemoveKeySize(m: map<int, int>, k: int)
    requires k in m
    ensures |m - {k}| == |m| - 1
  {
    assert (m - {k}).Keys == m.Keys - {k};
    assert |m.Keys - {k}| == |m.Keys| - 1;
  }

  /** `get` on a key that is not cached returns `-1` and changes nothing. */
  lemma GetMiss(c: Cache, key: int)
    requires key !in c.store
    ensures Get(c, key) == (Miss, c)
  {
  }

  /** `get` on a cached key returns its value and moves it to the front;
      keys, values and size are unchanged and the other keys keep their
      relative order. */
  lemma GetHit(c: Cache, key: int, i: int)
    requires Valid(c) && 0 <= i < |c.order| && c.order[i] == key
    ensures key in c.store
    ensures Get(c, key).0 == c.store[key]
    ensures Get(c, key).1.store == c.store
    ensures Get(c, key).1.capacity == c.capacity
    ensures Get(c, key).1.order == [key] + c.order[..i] + c.order[i + 1..]
    ensures |Get(c, key).1.order| == |c.order|
  {
    TouchAt(c.order, i);
  }

  /** `get` preserves the representation invariant. */
  lemma GetValid(c: Cache, key: int)
    requires Valid(c)
    ensures Valid(Get(c, key).1)
  {
    if key in c.store {
      var i := IndexOf(c, key);
      TouchAt(c.order, i);
    }
  }

  /** `put` on a cached key replaces only that key's value and moves it to the
      front; nothing is evicted and the size is unchanged. */
  lemma PutExisting(c: Cache, key: int, value: int, i: int)
    requires Valid(c) && 0 <= i < |c.order| && c.order[i] == key
    ensures Put(c, key, value).store == c.store[key := value]
    ensures Put(c, key, value).store.Keys == c.store.Keys
    ensures Put(c, key, value).order == [key] + c.order[..i] + c.order[i + 1..]
    ensures |Put(c, key, value).order| == |c.order|
  {
    TouchAt(c.order, i);
  }

  /** `put` of a new key into a full cache removes exactly the key at the
      back of the order (the unlinking of the tail) from both the index and
      the list; every other entry survives with its value. */
  lemma PutEvicts(c: Cache, key: int, value: int)
    requires Valid(c) && key !in c.store && |c.store| == c.capacity
    ensures |c.order| >= 1
    ensures var victim := c.order[|c.order| - 1];
      && Remove(c.order, victim) == c.order[..|c.order| - 1]
      && victim !in Put(c, key, value).store
      && victim !in Put(c, key, value).order
      && Put(c, key, value).order == [key] + Remove(c.order, victim)
      && (forall k :: k in c.store && k != victim ==>
            k in Put(c, key, value).store && Put(c, key, value).store[k] == c.store[k])
  {
    var n := |c.order|;
    var rest := c.order[..n - 1];
    RemoveAt(c.order, n - 1);
    assert c.order[n - 1] !in rest by {
      forall j | 0 <= j < n - 1 ensures rest[j] != c.order[n - 1] {}
    }
  }

  /** `put` of a new key leaves it at the front with the given value; when
      the cache was not full nothing is evicted. */
  lemma PutNew(c: Cache, key: int, value: int)
    requires Valid(c) && key !in c.store
    ensures Put(c, key, value).order[0] == key
    ensures key in Put(c, key, value).store && Put(c, key, value).store[key] == value
    ensures |Put(c, key, value).store| <= c.capacity
    ensures |c.store| < c.capacity ==>
      Put(c, key, value).order == [key] + c.order &&
      Put(c, key, value).store == c.store[key := value]
  {
    PutValid(c, key, value);
  }

  /** `put` preserves the representation invariant; in particular the size
      never exceeds the capacity. */
  lemma PutValid(c: Cache, key: int, value: int)
    requires Valid(c)
    ensures Valid(Put(c, key, value))
  {
    if key in c.store {
      var i := IndexOf(c, key);
      TouchAt(c.order, i);
    } else if |c.store| == c.capacity {
      PutValidEvict(c, key, value);
    } else {
      PrependNoDup(key, c.order);
    }
  }

  /** The eviction case of `PutValid`. */
  lemma PutValidEvict(c: Cache, key: int, value: int)
    requires Valid(c) && key !in c.store && |c.store| == c.capacity
    ensures Valid(Put(c, key, value))
  {
    var n := |c.order|;
    var victim := c.order[n - 1];
    var rest := c.order[..n - 1];
    RemoveAt(c.order, n - 1);
    RemoveAtNoDup(c.order, n - 1);
    assert c.order[..n - 1] + c.order[n..] == rest;
    RemoveKeySize(c.store, victim);
    PrependNoDup(key, rest);
  }

  /** Putting an absent key in front keeps a sequence duplicate-free. */
  lemma PrependNoDup(k: int, s: seq<int>)
    requires NoDup(s) && k !in s
    ensures NoDup([k] + s)
  {
    var t := [k] + s;
    forall a, b | 0 <= a < b < |t| ensures t[a] != t[b] {
      assert t[b] == s[b - 1];
      if a > 0 {
        assert t[a] == s[a - 1];
      }
    }
  }

  /** The snapshot lists every cached entry exactly once, with its value,
      most recently used first. */
  lemma SnapshotEntries(c: Cache)
    requires Valid(c)
    ensures var s := Snapshot(c.order, c.store);
      && (forall a, b :: 0 <= a < b < |s| ==> s[a].0 != s[b].0)
      && (forall i :: 0 <= i < |s| ==> s[i].0 in c.store && s[i].1 == c.store[s[i].0])
      && (forall k :: k in c.store ==> exists i :: 0 <= i < |s| && s[i] == (k, c.store[k]))
  {
    var s := Snapshot(c.order, c.store);
    forall k | k in c.store ensures exists i :: 0 <= i < |s| && s[i] == (k, c.store[k]) {
      var i := IndexOf(c, k);
      assert s[i] == (k, c.store[k]);
    }
  }

  /** After `get(k)` on a cached key, a `put` that overflows the cache does
      not evict `k` (as long as the cache holds at least two entries). */
  lemma TouchedKeySurvives(c: Cache, k: int, key: int, value: int)
    requires Valid(c) && c.capacity >= 2 && k in c.store
    requires key !in c.store && |c.store| == c.capacity
    ensures Valid(Get(c, k).1)
    ensures k in Put(Get(c, k).1, key, value).store
  {
    var i := IndexOf(c, k);
    GetValid(c, k);
    var c1 := Get(c, k).1;
    TouchAt(c.order, i);
    assert c1.order[0] == k && |c1.order| >= 2;
    assert c1.order[|c1.order| - 1] != k;
  }

  /** Repeating `get` on a cached key returns the same value and, once the
      key is at the front, changes nothing. */
  lemma RepeatedGet(c: Cache, k: int)
    requires Valid(c) && k in c.store
    ensures Get(Get(c, k).1, k) == (Get(c, k).0, Get(c, k).1)
  {
    var i := IndexOf(c, k);
    var c1 := Get(c, k).1;
    TouchAt(c.order, i);
    assert c1.order[0] == k && k in c1.store;
    RemoveAt(c1.order, 0);
    assert c1.order[..0] + c1.order[1..] == c1.order[1..];
    assert Touch(c1.order, k) == [k] + c1.order[1..] == c1.order;
    assert Get(c1, k) == (c1.store[k], c1.(order := Touch(c1.order, k)));
  }

  /** Because the miss result is the value `-1`, a stored `-1` reads back
      exactly like a key that is not cached (compare `GetMiss`). */
  lemma StoredMissValueIsAmbiguous(c: Cache, key: int)
    requires Valid(c)
    ensures key in Put(c, key, Miss).store && Get(Put(c, key, Miss), key).0 == Miss
  {
    PutValid(c, key, Miss);
  }

  /** `s` back to front. */
  function Rev(s: seq<int>): (r: seq<int>)
    ensures |r| == |s|
    ensures forall i :: 0 <= i < |s| ==> r[i] == s[|s| - 1 - i]
  {
    if s == [] then [] else [s[|s| - 1]] + Rev(s[..|s| - 1])
  }

  /** A fresh cache after `put(k, v)` for each key `k` of `ks` in turn. */
  function Filled(capacity: int, ks: seq<int>, v: int): (r: Cache)
    requires capacity >= 1
    ensures Valid(r) && r.capacity == capacity
  {
    if ks == [] then Empty(capacity)
    else
      var c := Filled(capacity, ks[..|ks| - 1], v);
      PutValid(c, ks[|ks| - 1], v);
      Put(c, ks[|ks| - 1], v)
  }

  /** Putting at most `capacity` distinct keys into a fresh cache evicts
      nothing: every key is cached, and the last one put is the most
      recently used. */
  lemma {:induction false} FillOrder(capacity: int, ks: seq<int>, v: int)
    requires capacity >= 1 && NoDup(ks) && |ks| <= capacity
    ensures Filled(capacity, ks, v).order == Rev(ks)
    ensures forall k :: k in Filled(capacity, ks, v).store <==> k in ks
  {
    if ks != [] {
      var n := |ks|;
      var p, k := ks[..n - 1], ks[n - 1];
      assert NoDup(p) by {
        forall a, b | 0 <= a < b < |p| ensures p[a] != p[b] {
          assert p[a] == ks[a] && p[b] == ks[b];
        }
      }
      FillOrder(capacity, p, v);
      assert k !in p by {
        forall j | 0 <= j < |p| ensures p[j] != k {
          assert p[j] == ks[j];
        }
      }
      var c := Filled(capacity, p, v);
      assert |c.store| == |p| < capacity;
      PutNew(c, k, v);
      forall x ensures x in ks <==> x in p || x == k {
        if x in ks {
          var j :| 0 <= j < n && ks[j] == x;
          if j < n - 1 { assert p[j] == x; }
        }
      }
    }
  }

  /** With no `get` in between, putting `capacity + 1` distinct keys into a
      fresh cache evicts exactly the first key put. */
  lemma FirstInsertedIsEvicted(capacity: int, ks: seq<int>, key: int, v: int)
    requires capacity >= 1 && NoDup(ks) && |ks| == capacity && key !in ks
    ensures ks[0] !in Put(Filled(capacity, ks, v), key, v).store
    ensures forall i :: 0 < i < |ks| ==> ks[i] in Put(Filled(capacity, ks, v), key, v).store
  {
    var c := Filled(capacity, ks, v);
    FillOrder(capacity, ks, v);
    assert c.order[|c.order| - 1] == ks[0];
    forall i | 0 < i < |ks| ensures ks[i] in Put(c, key, v).store {
      assert ks[i] != ks[0];
    }
  }

  /** The scenario of the source's own tests, with a capacity of 2, in
      three stages; each step's result and the cache it leaves behind.
      First stage: fill the cache and read the older key, which moves it
      to the front. */
  lemma SourceTraceFill()
    ensures Valid(Cache(2, [], map[])) && Empty(2) == Cache(2, [], map[])
    ensures Put(Cache(2, [], map[]), 1, 10) == Cache(2, [1], map[1 := 10])
    ensures Valid(Cache(2, [1], map[1 := 10]))
    ensures Put(Cache(2, [1], map[1 := 10]), 2, 20) == Cache(2, [2, 1], map[1 := 10, 2 := 20])
    ensures Get(Cache(2, [2, 1], map[1 := 10, 2 := 20]), 1)
      == (10, Cache(2, [1, 2], map[1 := 10, 2 := 20]))
  {
    assert Remove([2, 1], 1) == [2];
    assert Touch([2, 1], 1) == [1, 2];
  }

  /** Second stage: a third key evicts key 2, the one not read since. */
  lemma SourceTraceEvict()
    ensures Valid(Cache(2, [1, 2], map[1 := 10, 2 := 20]))
    ensures Put(Cache(2, [1, 2], map[1 := 10, 2 := 20]), 3, 30)
      == Cache(2, [3, 1], map[1 := 10, 3 := 30])
    ensures Get(Cache(2, [3, 1], map[1 := 10, 3 := 30]), 2)
      == (Miss, Cache(2, [3, 1], map[1 := 10, 3 := 30]))
    ensures Get(Cache(2, [3, 1], map[1 := 10, 3 := 30]), 3)
      == (30, Cache(2, [3, 1], map[1 := 10, 3 := 30]))
  {
    assert map[1 := 10, 2 := 20] - {2} == map[1 := 10];
    assert Remove([3, 1], 3) == [1];
    assert Touch([3, 1], 3) == [3, 1];
  }

  /** Third stage: a fourth key evicts key 1, now the least recently used. */
  lemma SourceTraceEvictAgain()
    ensures Valid(Cache(2, [3, 1], map[1 := 10, 3 := 30]))
    ensures Put(Cache(2, [3, 1], map[1 := 10, 3 := 30]), 4, 40)
      == Cache(2, [4, 3], map[3 := 30, 4 := 40])
    ensures Get(Cache(2, [4, 3], map[3 := 30, 4 := 40]), 1)
      == (Miss, Cache(2, [4, 3], map[3 := 30, 4 := 40]))
    ensures Get(Cache(2, [4, 3], map[3 := 30, 4 := 40]), 4)
      == (40, Cache(2, [4, 3], map[3 := 30, 4 := 40]))
  {
    assert map[1 := 10, 3 := 30] - {1} == map[3 := 30];
    assert Remove([4, 3], 4) == [3];
    assert Touch([4, 3], 4) == [4, 3];
  }
}
