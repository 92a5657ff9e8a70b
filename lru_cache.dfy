/** The cache engine: a key-to-node index plus a hand-linked doubly linked
    recency list, head = most recently used, tail = least recently used.
    Nodes live in the slots of one array; a link is a slot number and `Nil`
    stands for the null pointer. */
module LruCache {
  import opened Recency
  import opened NodeList
  import opened CacheRep
  import LruModel

  class LRUCache {
    const capacity: int
    /** Index from key to the slot of its node. */
    var cacheMap: map<int, int>
    /** Most recently used node, or `Nil`. */
    var head: int
    /** Least recently used node, or `Nil`. */
    var tail: int
    /** Node storage, one slot per possible entry. */
    const nodes: array<Node>

    /** The slots on the list, walked from `head` along `next`. */
    ghost var Slots: seq<int>
    /** The cached keys, most recently used first. */
    ghost var Order: seq<int>
    /** The cached key-value pairs. */
    ghost var Contents: map<int, int>

    /** The abstract cache this object represents. */
    ghost function Abs(): LruModel.Cache
      reads this
    {
      LruModel.Cache(capacity, Order, Contents)
    }

    /** `head`, `tail` and the `prev`/`next` links of the nodes in `Slots`
        form a doubly linked list that visits exactly `Slots`, in order. */
    ghost predicate Linked()
      reads this, nodes
    {
      ListOf(nodes[..], Slots, head, tail)
    }

    /** The object invariant. */
    ghost predicate Valid()
      reads this, nodes
    {
      Rep(capacity, nodes[..], Slots, head, tail, cacheMap, Order, Contents)
    }

    constructor (cap: int)
      requires cap >= 1
      ensures Valid() && fresh(nodes)
      ensures Abs() == LruModel.Empty(cap)
    {
      capacity := cap;
      nodes := new Node[cap](_ => Node(0, 0, Nil, Nil));
      cacheMap := map[];
      head := Nil;
      tail := Nil;
      Slots, Order, Contents := [], [], map[];
    }

    /** Unlink `node` (a no-op for `Nil`), repairing its neighbours' links
        and `head`/`tail` when it sat at an end of the list. */
    method RemoveNode(node: int)
      requires Linked() && (node == Nil || node in Slots)
      modifies this`head, this`tail, this`Slots, nodes
      ensures Linked()
      ensures Slots == Remove(old(Slots), node)
      ensures SamePayload(old(nodes[..]), nodes[..])
    {
      if node == Nil {
        RemoveAbsent(Slots, node);
        return;
      }
      ghost var i := PositionOf(Slots, node);
      ghost var links, before, head0, tail0 := nodes[..], Slots, head, tail;
      Neighbours(links, before, head, tail, i);
      RemoveAt(before, i);
      Slots := before[..i] + before[i + 1..];
      var p := nodes[node].prev;
      var n := nodes[node].next;
      ghost var bridged := SetNext(links, p, n);
      if p != Nil {
        nodes[p] := nodes[p].(next := n);
        assert nodes[..] == links[p := links[p].(next := n)] == bridged;
      } else {
        head := n;
        assert nodes[..] == links == bridged;
      }
      if n != Nil {
        nodes[n] := nodes[n].(prev := p);
        assert nodes[..] == bridged[n := bridged[n].(prev := p)] == SetPrev(bridged, n, p);
      } else {
        tail := p;
        assert nodes[..] == bridged == SetPrev(bridged, n, p);
      }
      RelinkKeepsPayload(links, p, n, n, p);
      Unlink(links, before, head0, tail0, i, nodes[..], Slots, head, tail);
    }

    /** Link the detached `node` in as the new head (and tail, if the list
        was empty). */
    method InsertAtFront(node: int)
      requires Linked() && 0 <= node < nodes.Length && node !in Slots
      modifies this`head, this`tail, this`Slots, nodes
      ensures Linked()
      ensures Slots == [node] + old(Slots)
      ensures SamePayload(old(nodes[..]), nodes[..])
    {
      ghost var links := nodes[..];
      LinkFront(links, Slots, head, tail, node);
      nodes[node] := nodes[node].(prev := Nil, next := head);
      ghost var linked := nodes[..];
      assert linked == links[node := links[node].(prev := Nil, next := head)];
      if head != Nil {
        nodes[head] := nodes[head].(prev := node);
      }
      assert nodes[..] == SetPrev(linked, head, node);
      assert SamePayload(links, nodes[..]);
      head := node;
      if tail == Nil {
        tail := head;
      }
      Slots := [node] + Slots;
    }

    /** `get`: `-1` and no change on a miss; on a hit the stored value, with
        the key moved to the front. */
    method Get(key: int) returns (r: int)
      requires Valid()
      modifies this, nodes
      ensures Valid()
      ensures (r, Abs()) == LruModel.Get(old(Abs()), key)
    {
      if key !in cacheMap {
        return LruModel.Miss;
      }
      ghost var ns0, slots0, head0, tail0 := nodes[..], Slots, head, tail;
      ghost var order0 := Order;
      var node := cacheMap[key];
      RepSlotOf(capacity, ns0, slots0, head0, tail0, cacheMap, order0, Contents, key);
      RemoveNode(node);
      ghost var ns2 := nodes[..];
      InsertAtFront(node);
      Order := LruModel.Touch(order0, key);
      RepGetHit(capacity, ns0, slots0, head0, tail0, cacheMap, order0, Contents, key,
                ns2, nodes[..], Slots, head, tail, cacheMap, Order, Contents);
      r := nodes[node].value;
    }

    /** `put`: overwrite and move to the front an existing key; otherwise,
        when full, evict the tail, then link a node for the new key in at
        the front. */
    method Put(key: int, value: int)
      requires Valid()
      modifies this, nodes
      ensures Valid()
      ensures Abs() == LruModel.Put(old(Abs()), key, value)
    {
      if key in cacheMap {
        Refresh(key, value);
      } else if |cacheMap| == capacity {
        EvictAndAdmit(key, value);
      } else {
        Admit(key, value);
      }
    }

    /** The branch of `put` for a cached key: overwrite its value and move
        its node to the front. */
    method Refresh(key: int, value: int)
      requires Valid() && key in cacheMap
      modifies this, nodes
      ensures Valid()
      ensures Abs() == LruModel.Put(old(Abs()), key, value)
    {
      ghost var ns0, slots0, head0, tail0 := nodes[..], Slots, head, tail;
      ghost var index0, order0, contents0 := cacheMap, Order, Contents;
      var node := cacheMap[key];
      RepSlotOf(capacity, ns0, slots0, head0, tail0, index0, order0, contents0, key);
      nodes[node] := nodes[node].(value := value);
      ghost var ns1 := nodes[..];
      WriteKeepsList(ns0, ns1, Slots, head, tail, node);
      RemoveNode(node);
      ghost var ns2 := nodes[..];
      InsertAtFront(node);
      Order := LruModel.Touch(order0, key);
      Contents := contents0[key := value];
      RepRefresh(capacity, ns0, slots0, head0, tail0, index0, order0, contents0, key, value,
                 ns1, ns2, nodes[..], Slots, head, tail, cacheMap, Order, Contents);
    }

    /** The branch of `put` for a new key into a full cache: unlink the
        tail, drop its key from the index, and reuse its node for the new
        key. */
    method EvictAndAdmit(key: int, value: int)
      requires Valid() && key !in cacheMap && |cacheMap| == capacity
      modifies this, nodes
      ensures Valid()
      ensures Abs() == LruModel.Put(old(Abs()), key, value)
    {
      ghost var ns0, slots0, head0, tail0 := nodes[..], Slots, head, tail;
      ghost var index0, order0, contents0 := cacheMap, Order, Contents;
      var slot := EvictTail();
      ghost var ns1 := nodes[..];
      LinkNew(key, value, slot);
      Order, Contents := [key] + order0[..|order0| - 1],
        (contents0 - {order0[|order0| - 1]})[key := value];
      RepEvict(capacity, ns0, slots0, head0, tail0, index0, order0, contents0, key, value,
               ns1, nodes[..], Slots, head, tail, cacheMap, Order, Contents);
    }

    /** Evict the least recently used entry of a full cache: unlink the
        tail and drop its key from the index. Its slot, now free, is
        returned for reuse. */
    method EvictTail() returns (slot: int)
      requires Valid() && |cacheMap| == capacity
      modifies this`head, this`tail, this`Slots, this`cacheMap, nodes
      ensures Linked() && slot == old(tail) && 0 <= slot < nodes.Length
      ensures Slots == Remove(old(Slots), slot) && slot !in Slots
      ensures SamePayload(old(nodes[..]), nodes[..])
      ensures |old(Order)| >= 1 && cacheMap == old(cacheMap) - {old(Order)[|old(Order)| - 1]}
    {
      RepDropTail(capacity, nodes[..], Slots, head, tail, cacheMap, Order, Contents);
      slot := tail;
      RemoveNode(slot);
      cacheMap := cacheMap - {nodes[slot].key};
    }

    /** The branch of `put` for a new key into a cache with room: the new
        key's node takes the first unused slot. */
    method Admit(key: int, value: int)
      requires Valid() && key !in cacheMap && |cacheMap| != capacity
      modifies this, nodes
      ensures Valid()
      ensures Abs() == LruModel.Put(old(Abs()), key, value)
    {
      ghost var ns0, slots0, head0, tail0 := nodes[..], Slots, head, tail;
      ghost var index0, order0, contents0 := cacheMap, Order, Contents;
      RepFreeSlots(capacity, ns0, slots0, head0, tail0, index0, order0, contents0);
      LinkNew(key, value, |cacheMap|);
      Order, Contents := [key] + order0, contents0[key := value];
      RepPush(capacity, ns0, slots0, head0, tail0, index0, order0, contents0, key, value,
              nodes[..], Slots, head, tail, cacheMap, Order, Contents);
    }

    /** The common end of both branches of `put` for a new key: store a
        node for it in the free `slot`, link that node in at the front and
        index the key to it. */
    method LinkNew(key: int, value: int, slot: int)
      requires Linked() && 0 <= slot < nodes.Length && slot !in Slots
      modifies this`head, this`tail, this`Slots, this`cacheMap, nodes
      ensures Linked() && Slots == [slot] + old(Slots)
      ensures cacheMap == old(cacheMap)[key := slot]
      ensures SamePayload(old(nodes[..])[slot := Node(key, value, Nil, Nil)], nodes[..])
    {
      ghost var ns0 := nodes[..];
      nodes[slot] := Node(key, value, Nil, Nil);
      ghost var ns1 := nodes[..];
      assert ns1 == ns0[slot := Node(key, value, Nil, Nil)];
      WriteKeepsList(ns0, ns1, Slots, head, tail, slot);
      InsertAtFront(slot);
      cacheMap := cacheMap[key := slot];
    }

    /** `display`: the (key, value) pairs walked from head to tail. */
    method Display() returns (snap: seq<(int, int)>)
      requires Valid()
      ensures snap == LruModel.Snapshot(Order, Contents)
    {
      snap := [];
      var curr := head;
      ghost var j := 0;
      while curr != Nil
        invariant 0 <= j <= |Slots|
        invariant curr == if j < |Slots| then Slots[j] else Nil
        invariant |snap| == j
        invariant forall t :: 0 <= t < j ==> snap[t] == (Order[t], Contents[Order[t]])
        decreases |Slots| - j
      {
        assert LinkedAt(nodes[..], Slots, j);
        assert EntryAt(nodes[..], Slots, cacheMap, Order, Contents, j);
        snap := snap + [(nodes[curr].key, nodes[curr].value)];
        curr := nodes[curr].next;
        j := j + 1;
      }
    }
  }

  /** The source's own test scenario with a capacity of 2; `passed` is true
      when every check it makes succeeds. */
  method RunTests() returns (passed: bool)
    ensures passed
  {
    LruModel.SourceTraceFill();
    LruModel.SourceTraceEvict();
    LruModel.SourceTraceEvictAgain();
    var cache := new LRUCache(2);
    cache.Put(1, 10);
    cache.Put(2, 20);
    var v := cache.Get(1);
    passed := v == 10;
    cache.Put(3, 30);
    v := cache.Get(2);
    passed := passed && v == LruModel.Miss;
    v := cache.Get(3);
    passed := passed && v == 30;
    cache.Put(4, 40);
    v := cache.Get(1);
    passed := passed && v == LruModel.Miss;
    v := cache.Get(4);
    passed := passed && v == 40;
  }
}
