# LRU cache: a verified model

`lru_cache.py` implements a least-recently-used cache. `LRUCache` is a
`dict` from key to `ListNode`. A doubly linked list of those nodes runs
between two sentinel nodes, `head` and `tail`: the node right after `head`
holds the least recently used key and the node right before `tail` the most
recently used one. The operations are:

- `get` moves the node of a hit to the tail end.
- `put` overwrites and moves an existing key. For a new key it first evicts
  the node after `head` when the dictionary already holds `capacity` keys,
  then appends a new node.
- `delete` unlinks and forgets one key.
- `reset` clears the dictionary and joins the sentinels again.

The Dafny model has four modules.

- `LruSpec` (`lru_spec.dfy`) is the abstract cache, `Cache(order, entries)`.
  `entries` is the dictionary from key to value. `order` lists the keys from
  least to most recently used.
  - `GetValue`, `AfterGet`, `AfterPut`, `AfterDelete` and `Empty` say what
    each operation returns and what the cache holds afterwards.
  - `Inv` is the cache's invariant: no key twice in `order`, the same keys in
    `order` and `entries`, and at most `capacity` of them.
  - The lemmas state the promises of `get`, `put` and `delete`. `Run` shows
    that the invariant, and so the size bound, holds after any sequence of
    operations. `PutsWithinCapacity` shows that `put`s touching at most
    `capacity` distinct keys, counting the keys already cached, evict
    nothing: each key holds its last written value.
- `LruList` (`lru_list.dfy`) is the doubly linked list.
  - A `ListNode` object is a reference `Ref`, a natural number.
  - The attributes `next` and `prev` are maps from reference to reference. A
    missing entry is an attribute that is `None`.
  - `Linked(next, prev, head, tail, ns)` says that the list reads `head`,
    `ns`, `tail` both forwards and backwards.
  - `RemoveLinked` and `AppendLinked` prove that the pointer updates of
    `_remove` and `_add_to_tail` keep the list well formed, with the node
    removed or appended.
- `LruCoupling` (`lru_coupling.dfy`) relates the concrete state to the
  abstract cache. `Coupled` holds when the dictionary `index`, the attributes
  `nodeKey`/`nodeValue` and the ghost node list present a `Cache`. Its lemmas
  show that each step of an operation presents the expected abstract result.
- `Lru` (`lru_cache.dfy`) is the class `LRUCache`.
  - Its fields are the attributes of all nodes (`nodeKey`, `nodeValue`,
    `prev`, `next`), the dictionary `index`, the constant sentinels and
    `capacity`, and the counter `nextFree` that hands out references for new
    nodes.
  - The sentinels have no key and no value, which the source writes as
    `None`; in the model their references are simply absent from `nodeKey`
    and `nodeValue`.
  - Two ghost fields, `nodes` (the linked nodes in order) and `model` (the
    abstract cache), connect the class to the specification.
  - The constructor, `Get`, `Put`, `UpdateExisting`, `EvictLeastRecent`,
    `InsertNew`, `Delete` and `Reset` keep `Valid()` and state their result
    and the new `model` through the `LruSpec` functions.
  - The node-level helpers say nothing about `model`. `Remove`, `AddToTail`
    and `MoveToTail` keep `Linked` and state the new `next`, `prev` and
    `nodes` exactly. `NewNode` states the new `nodeKey`, `nodeValue`, `prev`,
    `next` and `nextFree` exactly and says nothing about `Linked`:
    `InsertNew` shows that the new node is not linked and that the list is
    undisturbed.
  - `put` is split into its three branches, `UpdateExisting`,
    `EvictLeastRecent` and `InsertNew`, which `Put` calls as the source's
    branches run. Each step within a branch happens in the source's order;
    the ghost `model` is updated alongside the dictionary.
  - `EvictsOldest`, `HitRefreshes`, `EvictsAtOnce` and `DeleteAndReset` are
    callers of the class. From its contracts alone they prove the behaviour
    of small caches: which key `put` evicts, that a hit protects its key, that
    overwriting keeps the size, and what `delete` and `reset` do.

The guards on `None` in `_remove` (line 27), `_add_to_tail` (line 34) and the
eviction in `put` (line 62) always succeed while the invariant holds. The
model proves this instead of branching:

- `Remove` ensures that both links of the node were set.
- `AddToTail` reads `prev[tail]`, which `Linked` guarantees exists.
- `EvictLeastRecent` proves that `head.next` is the node of the least recently
  used key.

A miss in `get` returns -1, just as the source does. Since -1 can also be a
stored value, the return value alone does not tell a miss from a hit. The
contract therefore states the outcome in terms of the abstract cache:
`r == GetValue(old(model), key)`, which is the stored value when the key is
cached and -1 when it is absent.

## Model

| member | source | states |
|---|---|---|
| Lru.LRUCache.constructor | lru_cache.py:16-22 | a new cache has the given capacity, the sentinels joined to each other, and presents the empty cache |
| Lru.LRUCache.NewNode | lru_cache.py:5-9 | a new `ListNode` gets a reference no node had, holds the key and value, and has no `prev` or `next` |
| Lru.LRUCache.Remove | lru_cache.py:24-29 | `_remove` finds both links of a linked node set, joins its neighbours, and leaves exactly the other nodes linked in the same order |
| Lru.LRUCache.AddToTail | lru_cache.py:31-38 | `_add_to_tail` links an unlinked node last, just before `tail`, after all the nodes that were linked |
| Lru.LRUCache.MoveToTail | lru_cache.py:46-47 | `_remove` then `_add_to_tail` on a linked node makes it the last node and keeps the others in order; the new `next` and `prev` are the six pointer assignments of the two calls, in order |
| Lru.LRUCache.Contains | lru_cache.py:42 | `key in self` holds exactly when the key is cached |
| Lru.LRUCache.Size | lru_cache.py:59 | `len(self)` is the number of cached keys, the length of the recency list, and never above `capacity` |
| Lru.LRUCache.Get | lru_cache.py:40-48 | `get` returns the stored value, or -1 for an absent key; a hit becomes the most recently used key, and a miss changes nothing |
| Lru.LRUCache.Put | lru_cache.py:50-68 | `put` leaves the cache as `AfterPut`: overwrite and move an existing key, or evict the least recently used key when full and then append the new key |
| Lru.LRUCache.UpdateExisting | lru_cache.py:52-57 | the node of a cached key gets the new value and moves to the tail end; the cache becomes `AfterPut` of the old one |
| Lru.LRUCache.EvictLeastRecent | lru_cache.py:59-64 | with `capacity` keys cached, `head.next` is the least recently used key's node; unlinking it and deleting its key evicts exactly that key and leaves room for one more |
| Lru.LRUCache.InsertNew | lru_cache.py:66-68 | a new node for an uncached key is stored in the dictionary and linked last; the cache gains that key as its most recent one |
| Lru.LRUCache.Delete | lru_cache.py:70-77 | `delete` returns whether the key was cached and leaves the cache as `AfterDelete`: the key gone from the dictionary and from the list |
| Lru.LRUCache.Reset | lru_cache.py:79-83 | `reset` leaves the empty cache, with the sentinels joined again |
| LruList.RemoveLinkedAt | lru_cache.py:24-29 | joining the neighbours of the node at position `i` leaves the list without position `i` linked both ways |
| LruList.RemoveLinked | lru_cache.py:24-29 | a linked node has both links set, and joining its neighbours leaves exactly the other nodes linked in order |
| LruList.NextChainRemove | lru_cache.py:28 | `prev_node.next = next_node` keeps the forward chain of the remaining nodes |
| LruList.PrevChainRemove | lru_cache.py:29 | `next_node.prev = prev_node` keeps the backward chain of the remaining nodes |
| LruList.AppendLinked | lru_cache.py:31-38 | `tail.prev` is set, and the four pointer updates link the new node last, both ways |
| LruList.LinkedUntouched | lru_cache.py:8-9 | a new node's `prev` and `next` being `None` does not disturb the linked list |
| LruCoupling.CoupledNodes | lru_cache.py:64-68 | every linked node is the node of a cached key and so has a key; the reference of a new node, which no node had, is therefore not linked |
| LruCoupling.CoupledMove | lru_cache.py:44-47 | moving the node of a cached key to the tail end presents `AfterGet` |
| LruCoupling.CoupledPutExisting | lru_cache.py:54-57 | overwriting a cached key's node value and moving it to the tail end presents `AfterPut` |
| LruCoupling.CoupledDrop | lru_cache.py:74-76 | unlinking a cached key's node and deleting the key presents `AfterDelete` |
| LruCoupling.CoupledEvict | lru_cache.py:61-64 | the first linked node carries the least recently used key, and dropping it presents `Evict` |
| LruCoupling.CoupledAppend | lru_cache.py:66-68 | storing a new node for an uncached key and linking it last presents `Insert` |
| LruSpec.InvSize | lru_cache.py:59 | under the invariant, the dictionary's size equals the length of the recency list |
| LruSpec.GetHit | lru_cache.py:44-48 | `get` on a cached key returns its value, keeps the dictionary, and makes the key the last in the list, the other keys keeping their order |
| LruSpec.MoveToBackFacts | lru_cache.py:46-47 | moving a key to the back keeps the list's length, its keys and the others' order, puts the key last, and keeps the list free of repeats |
| LruSpec.PutExisting | lru_cache.py:52-57 | `put` on a cached key overwrites its value, keeps the size, and makes it the most recent key, the others keeping their order |
| LruSpec.EvictFacts | lru_cache.py:59-64 | evicting removes exactly the least recently used key, reduces the size by one, and keeps the invariant |
| LruSpec.InsertFacts | lru_cache.py:66-68 | appending an uncached key to a cache with room adds one entry and keeps the invariant |
| LruSpec.PutEvicts | lru_cache.py:59-68 | `put` of a new key into a full cache evicts exactly the least recently used key and appends the new one; the others keep their values and order, and the size stays at `capacity` |
| LruSpec.PutInserts | lru_cache.py:59-68 | `put` of a new key into a cache with room evicts nothing and appends the key as the most recent one |
| LruSpec.DeletePresent | lru_cache.py:70-77 | `delete` of a cached key removes it from the dictionary and splices it out of the list, the others keeping their order |
| LruSpec.Step | lru_cache.py:40-83 | every public operation keeps the cache's invariant |
| LruSpec.Run | lru_cache.py:40-83 | after any sequence of operations the invariant holds and the cache holds at most `capacity` keys |
| LruSpec.Puts | lru_cache.py:50-68 | a sequence of `put`s keeps the invariant |
| LruSpec.PutsWithinCapacity | lru_cache.py:50-68 | `put`s that touch at most `capacity` distinct keys, counting those already cached, evict nothing: every key holds the value last written to it and every key cached before stays cached |

## Left out

- `ListNode.__repr__` (lines 10-12) is left out: it only formats a string.
- Inherited `dict` methods are left out, except the ones the class itself
  uses: membership, lookup, store, delete, `len` and `clear`. A caller that
  used the rest (`pop`, `update`, `__setitem__` with a non-node value, …)
  would bypass the linked list and break the invariant. The model keeps the
  dictionary private.
- Non-positive capacity: the constructor requires `capacity > 0`. In the
  source, `put` with capacity 0 on an empty cache takes `head.next`, which is
  the `tail` sentinel. `_remove(tail)` then does nothing, because `tail.next`
  is `None`, and `del self[None]` raises `KeyError`.
- The false branches of the `None` guards (lines 27, 34 and 62) are proved
  unreachable while the invariant holds, so they are not modelled as
  branches.
- Unlinked nodes are left as they are, matching the source. A node removed by
  `_remove`, `put` or `reset` keeps its stale `prev`/`next` and its key and
  value in the maps. Nothing reads them again.
- Memory reclamation is left out: in Python such nodes become garbage, while
  the model never reuses a reference.
- Keys and values are modelled as `int`, following the type hints. Python
  would accept any hashable key and any value.
- Concurrency is left out: the source has no locking, and the model is
  sequential.
