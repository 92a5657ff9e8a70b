# LRU cache engine in Dafny

This project models the `LRUCache` class of `lru_cache.cpp`. The class is a fixed-capacity
key-value cache over `int` keys and `int` values. It has two parts:

- an `unordered_map` from each key to its list node;
- a hand-linked doubly linked recency list, where `head` is the most recently used entry and
  `tail` is the least recently used one, the next eviction victim.

The engine's operations are:

- `get`: returns the value and moves the entry to the front; returns `-1` on a miss.
- `put`: an existing key is overwritten and moved to the front. A new key first evicts the tail
  when the cache is full, then is linked in at the front.
- `display`: walks the list from head to tail.
- `removeNode` and `insertAtFront`: the two list rewirings that the operations above use.

The project has five modules.

- `Recency` (`recency.dfy`): key sequences ordered from most to least recently used.
  - `Remove` filters a key out of such a sequence.
  - `RemoveAt` proves that, on a duplicate-free sequence, this is the unlinking of one position.
- `LruModel` (`lru_model.dfy`): the abstract cache, as a value.
  - `Cache(capacity, order, store)` and its invariant `Valid`.
  - `Get`, `Put` and `Snapshot` as functions.
  - Lemmas for each branch of `get` and `put`, for invariant preservation, for the LRU policy, and
    for the scenario of the source's own test runner.
- `NodeList` (`node_list.dfy`): the linked list as values.
  - Nodes are stored in numbered slots and a link is a slot number; `Nil` (`-1`) plays the null
    pointer.
  - `ListOf` says that `head`, `tail` and the `prev`/`next` links visit a given slot sequence.
  - `Unlink` and `LinkFront` prove what the source's two rewirings do to it.
- `CacheRep` (`cache_rep.dfy`): how node storage, the list and the key-to-slot index represent an
  abstract `LruModel.Cache`. It also proves how each structural step carries that representation
  over to the changed cache.
- `LruCache` (`lru_cache.dfy`): the class itself.
  - Its fields are `capacity`, `cacheMap` (key to slot), `head`, `tail` and a node array.
  - Its ghost state is `Slots`, `Order` and `Contents`.
  - Every public method is proved to act on `Abs()` exactly as the `LruModel` function does, and
    to keep the object invariant `Valid()`.

## Model

| member | source | states |
|---|---|---|
| Recency.Remove | lru_cache.cpp:21-31 | unlinking a key removes exactly that key; the other keys keep their order, and the list shrinks when the key was on it |
| Recency.RemoveAbsent | lru_cache.cpp:22 | removing something that is not on the list changes nothing |
| Recency.RemoveAt | lru_cache.cpp:21-31 | on a duplicate-free list, removing the element at position i leaves the prefix before i followed by the suffix after i |
| NodeList.Unlink | lru_cache.cpp:21-31 | bridging a node's `prev` and `next` to each other, and moving `head`/`tail` off it when it sits at an end, leaves a well-formed list over the other slots in their original order |
| NodeList.RelinkKeepsPayload | lru_cache.cpp:23-30 | rewiring links never changes any node's key or value |
| NodeList.SetNext | lru_cache.cpp:24 | writing the `next` link of a node changes that one link and no other field or node; a `Nil` target (the null check of line 23) writes nothing |
| NodeList.SetPrev | lru_cache.cpp:28 | writing the `prev` link of a node (here and at line 37) changes that one link and no other field or node; a `Nil` target writes nothing |
| NodeList.WriteKeepsList | lru_cache.cpp:63 | overwriting a node's value, or filling a slot that is off the list, keeps the list intact |
| NodeList.LinkFront | lru_cache.cpp:33-41 | a detached node linked in before `head` becomes the head of a well-formed list that continues with the old list; it is also the tail when the list was empty |
| LruModel.Empty | lru_cache.cpp:44-48 | a new cache is empty and satisfies the invariant |
| LruModel.Valid | lru_cache.cpp:16-19 | the invariant of the fields: the index and the recency list hold the same keys, each key once on the list, never more than `capacity` of them, and `capacity` is at least 1 |
| LruModel.Touch | lru_cache.cpp:54-55 | moving a key to the front (here and at lines 64-65) puts it first and keeps exactly the old keys plus itself |
| LruModel.Get | lru_cache.cpp:50-57 | `get` never changes the stored keys, values or capacity; on a hit it returns the stored value and leaves the key at the front |
| LruModel.Put | lru_cache.cpp:59-79 | after `put` the key is cached with the given value at the front, the capacity is unchanged, and no key other than it is added |
| LruModel.Snapshot | lru_cache.cpp:81-89 | the snapshot has one (key, value) pair per list position, in MRU-to-LRU order |
| LruModel.TouchAt | lru_cache.cpp:54-55 | moving a key to the front is unlinking its one position and prepending it; key set, length and absence of duplicates are kept |
| LruModel.GetMiss | lru_cache.cpp:50-52 | `get` of a key not in the cache returns -1 and changes nothing |
| LruModel.GetHit | lru_cache.cpp:53-56 | `get` of a cached key returns its stored value, keeps keys, values and size, and moves the key to the front with the other keys in their old relative order |
| LruModel.GetValid | lru_cache.cpp:50-57 | `get` preserves the invariant |
| LruModel.PutExisting | lru_cache.cpp:60-65 | `put` on a cached key replaces only that key's value, keeps the key set and size, and moves the key to the front |
| LruModel.PutEvicts | lru_cache.cpp:69-75 | `put` of a new key into a full cache removes exactly the least recently used key from the index and the list; every other entry survives with its value |
| LruModel.PutNew | lru_cache.cpp:66-77 | `put` of a new key leaves it at the front with its value and the size within capacity; below capacity, nothing is evicted |
| LruModel.PutValid | lru_cache.cpp:59-79 | `put` preserves the invariant: the index and the list hold the same keys, each once, never more than `capacity` |
| LruModel.SnapshotEntries | lru_cache.cpp:81-89 | the snapshot lists every cached entry exactly once, with its current value |
| LruModel.TouchedKeySurvives | lru_cache.cpp:50-79 | with capacity at least 2, a key just read by `get` is not the victim of the next overflowing `put` |
| LruModel.RepeatedGet | lru_cache.cpp:50-57 | a second `get` of the same key returns the same value and changes nothing more |
| LruModel.StoredMissValueIsAmbiguous | lru_cache.cpp:50-56 | a stored value of -1 reads back exactly like the miss result |
| LruModel.Filled | lru_cache.cpp:59-79 | a fresh cache after a run of `put`s, one per key in turn, satisfies the invariant |
| LruModel.FillOrder | lru_cache.cpp:66-77 | putting at most `capacity` distinct keys into a fresh cache evicts nothing: exactly those keys are cached, the last one put first and the first one put last |
| LruModel.FirstInsertedIsEvicted | lru_cache.cpp:69-75 | after `capacity` distinct keys are put with no `get` in between, putting one more evicts exactly the first key put and keeps all the others |
| LruModel.SourceTraceFill | lru_cache.cpp:105-113 | capacity 2: after put(1,10) and put(2,20), get(1) returns 10 and leaves order [1,2] |
| LruModel.SourceTraceEvict | lru_cache.cpp:115-127 | put(3,30) evicts key 2; get(2) returns -1 and get(3) returns 30 |
| LruModel.SourceTraceEvictAgain | lru_cache.cpp:129-141 | put(4,40) evicts key 1; get(1) returns -1 and get(4) returns 40 |
| CacheRep.RepSlotOf | lru_cache.cpp:53 | the index maps a cached key to a slot that is on the list |
| CacheRep.Rep | lru_cache.cpp:16-19 | the fields represent an abstract cache: the linked list visits exactly the slots of the cached keys, most recently used first, each node holds its key and cached value, and `cacheMap` maps every cached key to its node |
| CacheRep.RepFreeSlots | lru_cache.cpp:16-19 | the slots in use are exactly 0..size-1, so the next free slot is off the list, and so is the tail's slot once it is unlinked |
| CacheRep.RepTouch | lru_cache.cpp:54-55 | moving a node to the front of the list is moving its key to the front of the abstract order |
| CacheRep.RepGetHit | lru_cache.cpp:53-56 | after unlinking and relinking a hit's node, the structure represents the cache with the key at the front, and the node holds the key's cached value |
| CacheRep.RepRefresh | lru_cache.cpp:62-65 | overwriting a node's value and moving it to the front represents `Touch` plus the updated value, which is what `LruModel.Put` returns for a cached key |
| CacheRep.RepDropTail | lru_cache.cpp:71-73 | in a full cache, the tail is the last slot of the list and holds the least recently used key |
| CacheRep.RepPush | lru_cache.cpp:66-77 | linking a fresh node at the front when not full represents prepending the key with its value, which is what `LruModel.Put` returns for a new key below capacity |
| CacheRep.RepEvict | lru_cache.cpp:69-77 | dropping the tail's key and linking the new node at the front represents eviction of the LRU key plus insertion, which is what `LruModel.Put` returns for a new key into a full cache |
| LruCache.LRUCache.constructor | lru_cache.cpp:44-48 | the new object represents the empty cache of the given capacity |
| LruCache.LRUCache.RemoveNode | lru_cache.cpp:21-31 | the list visits the old slots minus the node, in order (unchanged for `Nil`); no node's key or value changes |
| LruCache.LRUCache.InsertAtFront | lru_cache.cpp:33-41 | the list visits the node followed by the old slots; no key or value changes |
| LruCache.LRUCache.Get | lru_cache.cpp:50-57 | returns what `LruModel.Get` returns and leaves the cache it leaves; the invariant is kept |
| LruCache.LRUCache.Put | lru_cache.cpp:59-79 | leaves the cache `LruModel.Put` returns; the invariant is kept |
| LruCache.LRUCache.Refresh | lru_cache.cpp:60-65 | the existing-key branch of `put`, against `LruModel.Put` |
| LruCache.LRUCache.EvictAndAdmit | lru_cache.cpp:66-77 | the full-cache branch of `put` (evict, then insert), against `LruModel.Put` |
| LruCache.LRUCache.EvictTail | lru_cache.cpp:71-74 | unlinks the old tail and erases the least recently used key from the index; the freed slot is off the list |
| LruCache.LRUCache.Admit | lru_cache.cpp:66-77 | the not-full branch of `put`, against `LruModel.Put` |
| LruCache.LRUCache.LinkNew | lru_cache.cpp:76-77 | a node for (key, value) is linked at the front and indexed under the key |
| LruCache.LRUCache.Display | lru_cache.cpp:81-89 | the walk from head to tail yields `LruModel.Snapshot` of the cache |
| LruCache.RunTests | lru_cache.cpp:102-141 | every check of the source's test runner succeeds |

## Left out

- The interactive `main` loop and all console I/O (lru_cache.cpp:146-196) are not modelled.
- Printing is not modelled. `display` returns its (key, value) pairs instead of writing them, and
  the test runner's messages become a boolean result.
- Heap management is not modelled (`new` at line 68, `delete` at line 74, the destructor at lines
  91-98). Nodes live in a fixed array of `capacity` slots, and a new key's node takes the
  evicted node's slot, or else the first unused one. The source allocates the new node before it
  evicts; the model writes it after, which makes no difference to any state the source can
  observe.
- The hashing and bucket behaviour of `std::unordered_map` is not modelled. The index is a Dafny
  `map` from key to slot.
- TTL expiry, hit/miss counters (`stats`) and a mutual-exclusion lock: lru_cache.cpp has none of
  the three, so none is modelled, and `put` takes no TTL argument.
- Keys and values are unbounded integers. The source's 32-bit `int` and its `(int)` cast of
  `cacheMap.size()` at line 69 are not modelled, because a map holding at most `capacity` entries
  cannot exceed `int` range.
- LruCache.LRUCache.constructor requires `cap >= 1`, although the source does not check its
  argument.
  - With capacity 0, the first `put` of a new key takes the eviction branch on an empty list and
    dereferences the null `tail` at line 73.
  - With a negative capacity, the test at line 69 never fires and the cache grows without bound.
- LruCache.LRUCache.Put is split into `Refresh`, `EvictAndAdmit`, `EvictTail`, `Admit` and
  `LinkNew`. These follow the source's branches at lines 60-65, 69-75 and 76-77; each part is
  proved against the same abstract `put`.
