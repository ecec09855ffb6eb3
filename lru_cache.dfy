/**
 * The LRU cache of lru_cache.py as it runs.
 *
 * A `Ref` plays the part of a reference to a `ListNode` object, and each of
 * the four attributes of `ListNode` is a map from references owned by the
 * cache: `nodeKey`, `nodeValue`, `prev` and `next`. A reference missing from
 * a map is a node whose attribute is None, and the assignment
 * `node.next = other` is the update `next := next[node := other]`. The
 * dictionary `LRUCache` inherits from is the field `index`, from a key to the
 * reference of its node. Each public operation is proved against the
 * abstract model in `LruSpec`.
 */
module Lru {
  import opened LruSpec
  import opened LruList
  import opened LruCoupling

  class LRUCache {
    const capacity: int
    /** Sentinel before the least recently used node. */
    const head: Ref
    /** Sentinel after the most recently used node. */
    const tail: Ref
    /** The `key` attribute of every node that has one; the sentinels have none. */
    var nodeKey: map<Ref, int>
    /** The `value` attribute of every node that has one; the sentinels have none. */
    var nodeValue: map<Ref, int>
    /** The `prev` attribute of every node whose `prev` is not None. */
    var prev: map<Ref, Ref>
    /** The `next` attribute of every node whose `next` is not None. */
    var next: map<Ref, Ref>
    /** The reference the next `ListNode` created will get. */
    var nextFree: Ref
    /** The dictionary the cache inherits from: key to node. */
    var index: map<int, Ref>

    /** The nodes between the sentinels, least recently used first. */
    ghost var nodes: seq<Ref>
    /** The abstract cache this object presents. */
    ghost var model: Cache

    /**
     * The object invariant: the sentinels enclose exactly `nodes`, every
     * node with a key has a reference below `nextFree`, and the nodes, the
     * dictionary and `nodes` present `model`, which satisfies the abstract
     * invariant.
     */
    ghost predicate Valid()
      reads this
    {
      && 0 < capacity
      && Linked(next, prev, head, tail, nodes)
      && head < nextFree && tail < nextFree
      && Below(nodeKey, nextFree)
      && Coupled(nodeKey, nodeValue, nodes, model, index, capacity)
    }

    /** An empty cache of the given capacity: two sentinels joined to each other. */
    constructor (capacity: int)
      requires capacity > 0
      ensures Valid()
      ensures this.capacity == capacity
      ensures model == Empty()
    {
      this.capacity := capacity;
      head, tail := 0, 1;
      nodeKey, nodeValue := map[], map[];
      next, prev := map[0 := 1], map[1 := 0];
      nextFree := 2;
      index := map[];
      nodes, model := [], Empty();
    }

    /** Creates a `ListNode` holding `k` and `v`, with no neighbours, under a reference no node had. */
    method NewNode(k: int, v: int) returns (r: Ref)
      requires Below(nodeKey, nextFree)
      modifies this`nodeKey, this`nodeValue, this`prev, this`next, this`nextFree
      ensures r == old(nextFree) && r !in old(nodeKey)
      ensures nodeKey == old(nodeKey)[r := k] && nodeValue == old(nodeValue)[r := v]
      ensures prev == old(prev) - {r} && next == old(next) - {r}
      ensures nextFree == r + 1 && Below(nodeKey, nextFree)
    {
      r := nextFree;
      nodeKey, nodeValue := nodeKey[r := k], nodeValue[r := v];
      prev, next := prev - {r}, next - {r};
      nextFree := nextFree + 1;
    }

    /** Splices the linked `node` out of the list by joining its neighbours. */
    method Remove(node: Ref)
      requires Linked(next, prev, head, tail, nodes) && node in nodes
      modifies this`next, this`prev, this`nodes
      ensures Linked(next, prev, head, tail, nodes)
      ensures nodes == Without(old(nodes), node)
      ensures node in old(next) && node in old(prev)
      ensures next == old(next)[old(prev)[node] := old(next)[node]]
      ensures prev == old(prev)[old(next)[node] := old(prev)[node]]
    {
      RemoveLinked(next, prev, head, tail, nodes, node);
      var prevNode, nextNode := prev[node], next[node];
      next := next[prevNode := nextNode];
      prev := prev[nextNode := prevNode];
      nodes := Without(nodes, node);
    }

    /** Splices `node`, which is not linked, in just before `tail`, as the most recently used node. */
    method AddToTail(node: Ref)
      requires Linked(next, prev, head, tail, nodes) && node !in nodes && node != head && node != tail
      modifies this`next, this`prev, this`nodes
      ensures Linked(next, prev, head, tail, nodes)
      ensures nodes == old(nodes) + [node]
      ensures next == old(next)[old(prev)[tail] := node][node := tail]
      ensures prev == old(prev)[node := old(prev)[tail]][tail := node]
    {
      AppendLinked(next, prev, head, tail, nodes, node);
      var prevTail := prev[tail];
      next := next[prevTail := node];
      prev := prev[node := prevTail];
      next := next[node := tail];
      prev := prev[tail := node];
      nodes := nodes + [node];
    }

    /**
     * `_remove` followed by `_add_to_tail` on a linked node, as `get` and
     * `put` do with the node of a cached key: it becomes the most recently
     * used node and the others keep their order.
     */
    method MoveToTail(node: Ref)
      requires Linked(next, prev, head, tail, nodes) && node in nodes
      modifies this`next, this`prev, this`nodes
      ensures Linked(next, prev, head, tail, nodes)
      ensures nodes == Without(old(nodes), node) + [node]
      ensures node in old(next) && node in old(prev) && tail in old(prev)
      ensures var p, n := old(prev)[node], old(next)[node];
              var lastBefore := if n == tail then p else old(prev)[tail];
              && next == old(next)[p := n][lastBefore := node][node := tail]
              && prev == old(prev)[n := p][node := lastBefore][tail := node]
    {
      Remove(node);
      AddToTail(node);
    }

    /** Whether `key` is cached: the membership test of the dictionary. */
    function Contains(key: int): (b: bool)
      requires Valid()
      reads this
      ensures b <==> key in model.entries
    {
      key in index
    }

    /** The number of cached keys: the length of the dictionary, never above `capacity`. */
    function Size(): (n: int)
      requires Valid()
      reads this
      ensures n == |model.entries| == |model.order| && n <= capacity
    {
      InvSize(model, capacity);
      |index|
    }

    /**
     * Returns the value of `key` and makes it the most recently used key, or
     * returns -1 and changes nothing when `key` is not cached.
     */
    method Get(key: int) returns (r: int)
      requires Valid()
      modifies this
      ensures Valid()
      ensures r == GetValue(old(model), key)
      ensures model == AfterGet(old(model), key)
    {
      if key !in index {
        return -1;
      }
      var node := index[key];
      ghost var m := AfterGet(model, key);
      assert node in nodes && Coupled(nodeKey, nodeValue, Without(nodes, node) + [node], m, index, capacity) by {
        CoupledMove(nodeKey, nodeValue, nodes, model, index, capacity, key);
      }
      MoveToTail(node);
      model := m;
      r := nodeValue[node];
    }

    /**
     * Stores `value` under `key` and makes `key` the most recently used key;
     * a new key first evicts the least recently used one when the cache
     * already holds `capacity` keys.
     */
    method Put(key: int, value: int)
      requires Valid()
      modifies this
      ensures Valid()
      ensures model == AfterPut(old(model), capacity, key, value)
    {
      if key in index {
        UpdateExisting(key, value);
      } else {
        ghost var model0 := model;
        if |index| >= capacity {
          EvictLeastRecent();
        }
        assert model == (if |model0.entries| >= capacity then Evict(model0) else model0);
        InsertNew(key, value);
      }
    }

    /** The update step of `put`: the node of a cached key gets the new value and moves to the most recent end. */
    method UpdateExisting(key: int, value: int)
      requires Valid() && key in index
      modifies this
      ensures Valid()
      ensures model == AfterPut(old(model), capacity, key, value)
    {
      var node := index[key];
      ghost var m := AfterPut(model, capacity, key, value);
      assert node in nodes && Coupled(nodeKey, nodeValue[node := value], Without(nodes, node) + [node], m, index, capacity) by {
        CoupledPutExisting(nodeKey, nodeValue, nodes, model, index, capacity, key, value);
      }
      nodeValue, model := nodeValue[node := value], m;
      MoveToTail(node);
    }

    /** The eviction step of `put`: the least recently used key and its node go. */
    method EvictLeastRecent()
      requires Valid() && |index| >= capacity
      modifies this`next, this`prev, this`nodes, this`index, this`model
      ensures Valid()
      ensures old(model).order != [] && model == Evict(old(model))
      ensures |index| < capacity
    {
      var lru := next[head];
      assert lru == nodes[0] && lru in nodeKey && Coupled(nodeKey, nodeValue, Without(nodes, lru), Evict(model), index - {nodeKey[lru]}, capacity) by {
        CoupledEvict(nodeKey, nodeValue, nodes, model, index, capacity);
      }
      assert |index - {nodeKey[lru]}| < capacity by {
        InvSize(model, capacity);
        assert nodeKey[lru] in index;
      }
      Remove(lru);
      index, model := index - {nodeKey[lru]}, Evict(model);
    }

    /** The insertion step of `put`: a new node for a key not cached, in a cache with room for it. */
    method InsertNew(key: int, value: int)
      requires Valid() && key !in index && |index| < capacity
      modifies this
      ensures Valid()
      ensures model == Insert(old(model), key, value)
    {
      ghost var keys0, values0, next0, prev0 := nodeKey, nodeValue, next, prev;
      var newNode := NewNode(key, value);
      assert newNode !in nodes && newNode != head && newNode != tail && Linked(next, prev, head, tail, nodes) by {
        CoupledNodes(keys0, values0, nodes, model, index, capacity);
        LinkedUntouched(next0, prev0, head, tail, nodes, newNode);
      }
      assert Coupled(nodeKey, nodeValue, nodes + [newNode], Insert(model, key, value), index[key := newNode], capacity) by {
        CoupledAppend(keys0, values0, nodes, model, index, capacity, newNode, key, value);
      }
      index, model := index[key := newNode], Insert(model, key, value);
      AddToTail(newNode);
    }

    /** Removes `key` from the cache; the result says whether it was cached. */
    method Delete(key: int) returns (ok: bool)
      requires Valid()
      modifies this
      ensures Valid()
      ensures ok == (key in old(model).entries)
      ensures model == AfterDelete(old(model), key)
    {
      if key !in index {
        return false;
      }
      var node := index[key];
      ghost var m := AfterDelete(model, key);
      assert node in nodes && Coupled(nodeKey, nodeValue, Without(nodes, node), m, index - {key}, capacity) by {
        CoupledDrop(nodeKey, nodeValue, nodes, model, index, capacity, key);
      }
      Remove(node);
      index, model := index - {key}, m;
      return true;
    }

    /** Empties the cache: the dictionary is cleared and the sentinels are joined again. */
    method Reset()
      requires Valid()
      modifies this
      ensures Valid()
      ensures model == Empty()
    {
      index := map[];
      next := next[head := tail];
      prev := prev[tail := head];
      nodes, model := [], Empty();
    }
  }

  /*
   * Callers of the class: what its contracts let a client prove about a
   * small cache.
   */

  /** Capacity 2: a third key evicts the first, which was used least recently. */
  method EvictsOldest()
  {
    var c := new LRUCache(2);
    c.Put(1, 10);
    c.Put(2, 20);
    c.Put(3, 30);
    var v := c.Get(1);
    assert v == -1;
    v := c.Get(2);
    assert v == 20;
  }

  /** Capacity 2: a hit refreshes its key, so the next new key evicts the other one. */
  method HitRefreshes()
  {
    var c := new LRUCache(2);
    c.Put(1, 10);
    c.Put(2, 20);
    var v := c.Get(1);
    assert v == 10;
    c.Put(3, 30);
    v := c.Get(2);
    assert v == -1;
  }

  /** Capacity 1: a new key evicts at once, and overwriting keeps the size at one. */
  method EvictsAtOnce()
  {
    var c := new LRUCache(1);
    c.Put(1, 10);
    c.Put(2, 20);
    var v := c.Get(1);
    assert v == -1;
    c.Put(2, 21);
    assert c.Size() == 1;
    v := c.Get(2);
    assert v == 21;
  }

  /** `delete` of an absent key and of a cached key, then `reset` and a miss. */
  method DeleteAndReset()
  {
    var c := new LRUCache(2);
    c.Put(1, 10);
    var ok := c.Delete(5);
    assert !ok;
    ok := c.Delete(1);
    assert ok && c.Size() == 0;
    c.Put(2, 20);
    c.Reset();
    var v := c.Get(2);
    assert v == -1 && c.Size() == 0;
  }
}
