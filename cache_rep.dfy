/** How node storage, a linked list of slots and a key-to-slot index
    represent an abstract cache, and how each structural change the cache
    makes carries that representation over to the changed abstract cache. */
module CacheRep {
  import opened Recency
  import opened NodeList
  import LruModel

  /** Position `j` of the recency list: the node in slot `slots[j]` holds
      key `order[j]` with its cached value, and the index maps that key to
      the slot. Slots in use are numbered from 0. */
  ghost predicate EntryAt(ns: seq<Node>, slots: seq<int>, index: map<int, int>,
                          order: seq<int>, contents: map<int, int>, j: int)
  {
    && 0 <= j < |slots| && j < |order|
    && 0 <= slots[j] < |slots| && slots[j] < |ns|
    && order[j] in index && index[order[j]] == slots[j]
    && order[j] in contents
    && ns[slots[j]].key == order[j]
    && ns[slots[j]].value == contents[order[j]]
  }

  /** The representation of the abstract cache `Cache(capacity, order,
      contents)` by node storage `ns`, the list `head`..`tail` over `slots`
      and the key-to-slot `index`. */
  ghost predicate Rep(capacity: int, ns: seq<Node>, slots: seq<int>, head: int, tail: int,
                      index: map<int, int>, order: seq<int>, contents: map<int, int>)
  {
    && |ns| == capacity
    && ListOf(ns, slots, head, tail)
    && LruModel.Valid(LruModel.Cache(capacity, order, contents))
    && |slots| == |order|
    && index.Keys == contents.Keys
    && (forall j :: 0 <= j < |order| ==> EntryAt(ns, slots, index, order, contents, j))
  }

  /** The slots in use are exactly `0 .. |slots| - 1`: the first unused slot
      is off the list, and so is the tail's slot once the tail is unlinked. */
  lemma RepFreeSlots(capacity: int, ns: seq<Node>, slots: seq<int>, head: int, tail: int,
                     index: map<int, int>, order: seq<int>, contents: map<int, int>)
    requires Rep(capacity, ns, slots, head, tail, index, order, contents)
    ensures |slots| !in slots
    ensures |slots| == |order| == |contents| == |index|
    ensures slots != [] ==> tail == slots[|slots| - 1] && tail !in slots[..|slots| - 1]
  {
    forall j | 0 <= j < |slots| ensures slots[j] != |slots| {
      assert EntryAt(ns, slots, index, order, contents, j);
    }
    assert |index| == |contents| by {
      assert index.Keys == contents.Keys;
    }
    if slots != [] {
      var n := |slots|;
      var rest := slots[..n - 1];
      forall j | 0 <= j < n - 1 ensures rest[j] != slots[n - 1] {
        assert rest[j] == slots[j];
      }
    }
  }

  /** Moving the node at position `i` to the front, possibly with a new
      value, represents moving its key to the front with that value. */
  lemma RepTouch(capacity: int, ns: seq<Node>, slots: seq<int>, head: int, tail: int,
                 index: map<int, int>, order: seq<int>, contents: map<int, int>,
                 i: int, v: int, ns': seq<Node>, slots': seq<int>, head': int, tail': int,
                 order': seq<int>, contents': map<int, int>)
    requires Rep(capacity, ns, slots, head, tail, index, order, contents)
    requires 0 <= i < |order|
    requires slots' == [slots[i]] + slots[..i] + slots[i + 1..]
    requires order' == [order[i]] + order[..i] + order[i + 1..]
    requires contents' == contents[order[i] := v]
    requires ListOf(ns', slots', head', tail')
    requires |ns'| == |ns|
    requires forall x :: 0 <= x < |ns| ==>
      ns'[x].key == ns[x].key && ns'[x].value == (if x == slots[i] then v else ns[x].value)
    ensures Rep(capacity, ns', slots', head', tail', index, order', contents')
  {
    var key := order[i];
    var c := LruModel.Cache(capacity, order, contents);
    assert EntryAt(ns, slots, index, order, contents, i);
    LruModel.PutValid(c, key, v);
    LruModel.TouchAt(order, i);
    assert LruModel.Put(c, key, v) == LruModel.Cache(capacity, order', contents');
    forall j | 0 <= j < |order'| ensures EntryAt(ns', slots', index, order', contents', j) {
      var k := MovedFrom(i, j);
      MovedToFrontAt(slots, i, j);
      MovedToFrontAt(order, i, j);
      assert EntryAt(ns, slots, index, order, contents, k);
      if k != i {
        assert slots[k] != slots[i] && order[k] != key;
      }
    }
  }

  /** The index maps a cached key to a slot that is on the list. */
  lemma RepSlotOf(capacity: int, ns: seq<Node>, slots: seq<int>, head: int, tail: int,
                  index: map<int, int>, order: seq<int>, contents: map<int, int>, key: int)
    requires Rep(capacity, ns, slots, head, tail, index, order, contents)
    requires key in index
    ensures 0 <= index[key] < |ns| && index[key] in slots
  {
    var i := LruModel.IndexOf(LruModel.Cache(capacity, order, contents), key);
    assert EntryAt(ns, slots, index, order, contents, i);
  }

  /** Overwriting the value in the node of a cached key (`ns1`), then
      unlinking that node and linking it in again at the front, keeping
      every payload (`ns2`, `ns'`), represents `put` on a cached key. */
  lemma RepRefresh(capacity: int, ns: seq<Node>, slots: seq<int>, head: int, tail: int,
                   index: map<int, int>, order: seq<int>, contents: map<int, int>,
                   key: int, value: int, ns1: seq<Node>, ns2: seq<Node>,
                   ns': seq<Node>, slots': seq<int>, head': int, tail': int,
                   index': map<int, int>, order': seq<int>, contents': map<int, int>)
    requires Rep(capacity, ns, slots, head, tail, index, order, contents)
    requires key in index
    requires |ns1| == |ns|
    requires forall y :: 0 <= y < |ns| ==>
      ns1[y] == if y == index[key] then ns[y].(value := value) else ns[y]
    requires SamePayload(ns1, ns2) && SamePayload(ns2, ns')
    requires ListOf(ns', slots', head', tail') && slots' == [index[key]] + Remove(slots, index[key])
    requires index' == index
    requires order' == LruModel.Touch(order, key) && contents' == contents[key := value]
    ensures Rep(capacity, ns', slots', head', tail', index', order', contents')
    ensures LruModel.Put(LruModel.Cache(capacity, order, contents), key, value)
      == LruModel.Cache(capacity, order', contents')
  {
    var i := LruModel.IndexOf(LruModel.Cache(capacity, order, contents), key);
    assert EntryAt(ns, slots, index, order, contents, i);
    RemoveAt(slots, i);
    LruModel.TouchAt(order, i);
    assert slots' == [slots[i]] + slots[..i] + slots[i + 1..];
    forall x | 0 <= x < |ns| ensures
      ns'[x].key == ns[x].key && ns'[x].value == (if x == slots[i] then value else ns[x].value)
    {
      assert ns'[x].key == ns2[x].key == ns1[x].key;
    }
    RepTouch(capacity, ns, slots, head, tail, index, order, contents,
             i, value, ns', slots', head', tail', order', contents');
  }

  /** Unlinking the node of a cached key and linking it in again at the
      front, keeping every payload (`ns2`, `ns'`), represents a `get` hit;
      the node then holds the key's cached value. */
  lemma RepGetHit(capacity: int, ns: seq<Node>, slots: seq<int>, head: int, tail: int,
                  index: map<int, int>, order: seq<int>, contents: map<int, int>,
                  key: int, ns2: seq<Node>,
                  ns': seq<Node>, slots': seq<int>, head': int, tail': int,
                  index': map<int, int>, order': seq<int>, contents': map<int, int>)
    requires Rep(capacity, ns, slots, head, tail, index, order, contents)
    requires key in index
    requires SamePayload(ns, ns2) && SamePayload(ns2, ns')
    requires ListOf(ns', slots', head', tail') && slots' == [index[key]] + Remove(slots, index[key])
    requires index' == index
    requires order' == LruModel.Touch(order, key) && contents' == contents
    ensures Rep(capacity, ns', slots', head', tail', index', order', contents')
    ensures key in contents && 0 <= index[key] < |ns'| && ns'[index[key]].value == contents[key]
  {
    var i := LruModel.IndexOf(LruModel.Cache(capacity, order, contents), key);
    assert EntryAt(ns, slots, index, order, contents, i);
    var v := contents[key];
    assert contents[key := v] == contents;
    forall y | 0 <= y < |ns| ensures ns[y] == if y == index[key] then ns[y].(value := v) else ns[y] {
    }
    RepRefresh(capacity, ns, slots, head, tail, index, order, contents, key, v,
               ns, ns2, ns', slots', head', tail', index', order', contents');
  }

  /** In a full cache the tail is the node of the least recently used key,
      and unlinking it leaves the other slots, none of them the tail's. */
  lemma RepDropTail(capacity: int, ns: seq<Node>, slots: seq<int>, head: int, tail: int,
                    index: map<int, int>, order: seq<int>, contents: map<int, int>)
    requires Rep(capacity, ns, slots, head, tail, index, order, contents)
    requires |contents| == capacity
    ensures |slots| == |order| >= 1 && tail == slots[|slots| - 1]
    ensures 0 <= tail < |ns| && ns[tail].key == order[|order| - 1]
    ensures Remove(slots, tail) == slots[..|slots| - 1] && tail !in Remove(slots, tail)
  {
    RepFreeSlots(capacity, ns, slots, head, tail, index, order, contents);
    var n := |slots|;
    assert EntryAt(ns, slots, index, order, contents, n - 1);
    RemoveAt(slots, n - 1);
  }

  /** Storing the node of a new key in the first unused slot (`ns1`), then
      linking it in at the front (`ns'`), represents `put` of a new key
      into a cache that is not full. */
  lemma RepPush(capacity: int, ns: seq<Node>, slots: seq<int>, head: int, tail: int,
                index: map<int, int>, order: seq<int>, contents: map<int, int>,
                key: int, value: int,
                ns': seq<Node>, slots': seq<int>, head': int, tail': int,
                index': map<int, int>, order': seq<int>, contents': map<int, int>)
    requires Rep(capacity, ns, slots, head, tail, index, order, contents)
    requires key !in contents && |contents| < capacity && |index| < |ns|
    requires SamePayload(ns[|index| := Node(key, value, Nil, Nil)], ns')
    requires ListOf(ns', slots', head', tail') && slots' == [|index|] + slots
    requires index' == index[key := |index|]
    requires order' == [key] + order && contents' == contents[key := value]
    ensures Rep(capacity, ns', slots', head', tail', index', order', contents')
    ensures LruModel.Put(LruModel.Cache(capacity, order, contents), key, value)
      == LruModel.Cache(capacity, order', contents')
  {
    RepFreeSlots(capacity, ns, slots, head, tail, index, order, contents);
    var c := LruModel.Cache(capacity, order, contents);
    LruModel.PutValid(c, key, value);
    var n := |slots|;
    assert LruModel.Put(c, key, value) == LruModel.Cache(capacity, order', contents');
    forall j | 0 <= j < |order'| ensures EntryAt(ns', slots', index', order', contents', j) {
      if j > 0 {
        assert EntryAt(ns, slots, index, order, contents, j - 1);
        assert slots'[j] == slots[j - 1] && order'[j] == order[j - 1];
        assert order[j - 1] != key && slots[j - 1] != n;
        assert ns'[slots[j - 1]].key == ns[slots[j - 1]].key;
      } else {
        assert ns'[n].key == key;
      }
    }
  }

  /** Unlinking the tail (`ns1`), storing the node of the new key in the
      freed slot (`ns2`) and linking it in at the front (`ns'`), with the
      evicted key dropped from the index, represents `put` of a new key
      into a full cache. */
  lemma RepEvict(capacity: int, ns: seq<Node>, slots: seq<int>, head: int, tail: int,
                 index: map<int, int>, order: seq<int>, contents: map<int, int>,
                 key: int, value: int, ns1: seq<Node>,
                 ns': seq<Node>, slots': seq<int>, head': int, tail': int,
                 index': map<int, int>, order': seq<int>, contents': map<int, int>)
    requires Rep(capacity, ns, slots, head, tail, index, order, contents)
    requires key !in contents && |contents| == capacity && |order| >= 1
    requires SamePayload(ns, ns1) && 0 <= tail < |ns1|
    requires SamePayload(ns1[tail := Node(key, value, Nil, Nil)], ns')
    requires ListOf(ns', slots', head', tail') && slots' == [tail] + Remove(slots, tail)
    requires index' == (index - {order[|order| - 1]})[key := tail]
    requires order' == [key] + order[..|order| - 1]
    requires contents' == (contents - {order[|order| - 1]})[key := value]
    ensures Rep(capacity, ns', slots', head', tail', index', order', contents')
    ensures LruModel.Put(LruModel.Cache(capacity, order, contents), key, value)
      == LruModel.Cache(capacity, order', contents')
  {
    RepDropTail(capacity, ns, slots, head, tail, index, order, contents);
    var n := |slots|;
    var t, victim := slots[n - 1], order[n - 1];
    var c := LruModel.Cache(capacity, order, contents);
    LruModel.PutValid(c, key, value);
    assert EntryAt(ns, slots, index, order, contents, n - 1);
    assert slots' == [t] + slots[..n - 1];
    assert LruModel.Put(c, key, value) == LruModel.Cache(capacity, order', contents');
    assert index'.Keys == contents'.Keys;
    forall j | 0 <= j < |order'| ensures EntryAt(ns', slots', index', order', contents', j) {
      if j > 0 {
        assert EntryAt(ns, slots, index, order, contents, j - 1);
        assert slots'[j] == slots[j - 1] && order'[j] == order[j - 1];
        assert order[j - 1] != key && order[j - 1] != victim && slots[j - 1] != t;
        assert ns'[slots[j - 1]].key == ns1[slots[j - 1]].key;
      } else {
        assert ns'[t].key == key;
      }
    }
  }
}
