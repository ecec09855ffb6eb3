/**
 * How the concrete state of the cache of lru_cache.py (the node attributes,
 * the dictionary from key to node and the list of nodes) presents the
 * abstract `Cache` of `LruSpec`, and how each step of `get`, `put` and
 * `delete` carries that presentation over to the abstract result.
 */
module LruCoupling {
  import opened LruSpec
  import opened LruList

  /** `ns[j]` is what `index` holds for the key `ks[j]`, at every position `j`. */
  ghost predicate Agree<T>(ns: seq<T>, ks: seq<int>, index: map<int, T>) {
    && |ns| == |ks|
    && (forall j :: 0 <= j < |ks| ==> ks[j] in index && index[ks[j]] == ns[j])
  }

  /** Splicing the same position out of both lists keeps them in agreement. */
  lemma AgreeDrop<T>(ns: seq<T>, ks: seq<int>, index: map<int, T>, i: int)
    requires Agree(ns, ks, index) && 0 <= i < |ks|
    ensures Agree(ns[..i] + ns[i + 1..], ks[..i] + ks[i + 1..], index)
  {
  }

  /** Appending a key together with the entry `index` holds for it keeps the lists in agreement. */
  lemma AgreeAppend<T>(ns: seq<T>, ks: seq<int>, index: map<int, T>, k: int)
    requires Agree(ns, ks, index) && k in index
    ensures Agree(ns + [index[k]], ks + [k], index)
  {
  }

  /**
   * How the store, the dictionary `index` and the node list `nodes` present
   * the abstract cache `c`: the abstract invariant holds, the dictionary and
   * the cache have the same keys, the node at each position of `nodes` is the
   * one the dictionary holds for the key at that position of `c.order`, and
   * the node the dictionary holds for a key carries that key and its value.
   */
  ghost predicate Coupled(nodeKey: map<Ref, int>, nodeValue: map<Ref, int>, nodes: seq<Ref>, c: Cache, index: map<int, Ref>, capacity: int) {
    && Inv(c, capacity)
    && index.Keys == c.entries.Keys
    && Agree(nodes, c.order, index)
    && (forall k :: k in index ==>
          && index[k] in nodeKey && nodeKey[index[k]] == k
          && index[k] in nodeValue && nodeValue[index[k]] == c.entries[k])
  }

  /** Every reference that names a node with a key is below `bound`. */
  ghost predicate Below(nodeKey: map<Ref, int>, bound: Ref) {
    forall r :: r in nodeKey ==> r < bound
  }

  /** Every node between the sentinels is the node of a cached key, so it has a key. */
  lemma CoupledNodes(nodeKey: map<Ref, int>, nodeValue: map<Ref, int>, nodes: seq<Ref>, c: Cache, index: map<int, Ref>, capacity: int)
    requires Coupled(nodeKey, nodeValue, nodes, c, index, capacity)
    ensures forall j :: 0 <= j < |nodes| ==> nodes[j] in nodeKey
  {
    forall j | 0 <= j < |nodes| ensures nodes[j] in nodeKey {
      var k := c.order[j];
      assert k in index && index[k] == nodes[j];
      assert index[k] in nodeKey;
    }
  }

  /** `get` of a cached key `k`: moving its node to the most recent end presents `AfterGet(c, k)`. */
  lemma CoupledMove(nodeKey: map<Ref, int>, nodeValue: map<Ref, int>, nodes: seq<Ref>, c: Cache, index: map<int, Ref>, capacity: int, k: int)
    requires Coupled(nodeKey, nodeValue, nodes, c, index, capacity) && NoDup(nodes) && k in index
    ensures index[k] in nodes
    ensures Coupled(nodeKey, nodeValue, Without(nodes, index[k]) + [index[k]], AfterGet(c, k), index, capacity)
  {
    var i :| 0 <= i < |c.order| && c.order[i] == k;
    WithoutAt(c.order, i);
    WithoutAt(nodes, i);
    GetHit(c, capacity, k);
    AgreeDrop(nodes, c.order, index, i);
    AgreeAppend(nodes[..i] + nodes[i + 1..], c.order[..i] + c.order[i + 1..], index, k);
  }

  /**
   * `put` of a cached key `k`: overwriting the value in its node and moving
   * the node to the most recent end presents `AfterPut(c, capacity, k, v)`.
   */
  lemma CoupledPutExisting(nodeKey: map<Ref, int>, nodeValue: map<Ref, int>, nodes: seq<Ref>, c: Cache, index: map<int, Ref>, capacity: int, k: int, v: int)
    requires Coupled(nodeKey, nodeValue, nodes, c, index, capacity) && NoDup(nodes) && k in index && capacity > 0
    ensures index[k] in nodes
    ensures Coupled(nodeKey, nodeValue[index[k] := v], Without(nodes, index[k]) + [index[k]], AfterPut(c, capacity, k, v), index, capacity)
  {
    var c' := Cache(c.order, c.entries[k := v]);
    forall x | x in index && x != k ensures index[x] != index[k] {
      assert nodeKey[index[x]] == x;
    }
    assert Coupled(nodeKey, nodeValue[index[k] := v], nodes, c', index, capacity);
    CoupledMove(nodeKey, nodeValue[index[k] := v], nodes, c', index, capacity, k);
  }

  /** `delete` of a cached key `k`: dropping it from the dictionary and its node from the list presents `AfterDelete(c, k)`. */
  lemma CoupledDrop(nodeKey: map<Ref, int>, nodeValue: map<Ref, int>, nodes: seq<Ref>, c: Cache, index: map<int, Ref>, capacity: int, k: int)
    requires Coupled(nodeKey, nodeValue, nodes, c, index, capacity) && NoDup(nodes) && k in index
    ensures index[k] in nodes
    ensures Coupled(nodeKey, nodeValue, Without(nodes, index[k]), AfterDelete(c, k), index - {k}, capacity)
  {
    var i :| 0 <= i < |c.order| && c.order[i] == k;
    var order' := c.order[..i] + c.order[i + 1..];
    DeletePresent(c, capacity, k);
    WithoutAt(c.order, i);
    WithoutAt(nodes, i);
    AgreeDrop(nodes, c.order, index, i);
    forall j | 0 <= j < |order'| ensures order'[j] in index - {k} && (index - {k})[order'[j]] == (nodes[..i] + nodes[i + 1..])[j] {
      assert order'[j] in order';
    }
  }

  /**
   * Eviction: the first node after `head` is the node of the least recently
   * used key, and dropping that key presents `Evict(c)`.
   */
  lemma CoupledEvict(nodeKey: map<Ref, int>, nodeValue: map<Ref, int>, nodes: seq<Ref>, c: Cache, index: map<int, Ref>, capacity: int)
    requires Coupled(nodeKey, nodeValue, nodes, c, index, capacity) && NoDup(nodes) && |index| > 0
    ensures c.order != [] && nodes != [] && nodes[0] == index[c.order[0]]
    ensures nodes[0] in nodeKey && nodeKey[nodes[0]] == c.order[0]
    ensures Coupled(nodeKey, nodeValue, Without(nodes, nodes[0]), Evict(c), index - {c.order[0]}, capacity)
  {
    InvSize(c, capacity);
    assert |c.entries| == |index|;
    WithoutFirst(c.order);
    CoupledDrop(nodeKey, nodeValue, nodes, c, index, capacity, c.order[0]);
  }

  /** Appending a new key `k`, held by a new node `r`, to a cache with room to spare presents `Insert(c, k, v)`. */
  lemma CoupledAppend(nodeKey: map<Ref, int>, nodeValue: map<Ref, int>, nodes: seq<Ref>, c: Cache, index: map<int, Ref>, capacity: int, r: Ref, k: int, v: int)
    requires Coupled(nodeKey, nodeValue, nodes, c, index, capacity) && k !in c.entries && |c.entries| < capacity
    requires r !in nodeKey
    ensures Coupled(nodeKey[r := k], nodeValue[r := v], nodes + [r], Insert(c, k, v), index[k := r], capacity)
  {
    var c', index' := Insert(c, k, v), index[k := r];
    assert Inv(c', capacity) by {
      InsertFacts(c, capacity, k, v);
    }
    assert Agree(nodes + [r], c'.order, index') by {
      forall j | 0 <= j < |c.order| + 1 ensures c'.order[j] in index' && index'[c'.order[j]] == (nodes + [r])[j] {
        if j < |c.order| {
          assert c'.order[j] == c.order[j] && (nodes + [r])[j] == nodes[j];
          assert c.order[j] in c.order;
        }
      }
    }
    forall x | x in index' ensures index'[x] in nodeKey[r := k] && nodeKey[r := k][index'[x]] == x {
      if x != k {
        assert index[x] in nodeKey;
      }
    }
  }

}
