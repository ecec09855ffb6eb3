/**
 * Abstract model of the LRU cache in lru_cache.py.
 *
 * The cache is seen as a value `Cache(order, entries)`: `entries` is the
 * key-to-value dictionary and `order` lists the cached keys from the least
 * recently used (front) to the most recently used (back). The functions
 * `GetValue`, `AfterGet`, `AfterPut`, `AfterDelete` and `Empty` say what each
 * public operation of `LRUCache` returns and what the cache holds afterwards;
 * the lemmas state the promises the cache makes about them.
 */
module LruSpec {

  /** No element occurs twice in `s`: the first is not among the rest, and so on down the sequence. */
  predicate NoDup<T(==)>(s: seq<T>) {
    |s| == 0 || (s[0] !in s[1..] && NoDup(s[1..]))
  }

  /** `NoDup` says that any two positions hold different elements. */
  lemma {:induction false} NoDupPairwise<T>(s: seq<T>)
    ensures NoDup(s) <==> forall i, j :: 0 <= i < j < |s| ==> s[i] != s[j]
  {
    if |s| > 0 {
      NoDupPairwise(s[1..]);
      if NoDup(s) {
        forall i, j | 0 <= i < j < |s| ensures s[i] != s[j] {
          assert s[j] == s[1..][j - 1];
          if i > 0 {
            assert s[i] == s[1..][i - 1];
          }
        }
      }
      if forall i, j :: 0 <= i < j < |s| ==> s[i] != s[j] {
        forall a, b | 0 <= a < b < |s[1..]| ensures s[1..][a] != s[1..][b] {
          assert s[1..][a] == s[a + 1] && s[1..][b] == s[b + 1];
        }
        forall j | 0 <= j < |s[1..]| ensures s[1..][j] != s[0] {
          assert s[1..][j] == s[j + 1];
        }
      }
    }
  }

  /** Appending an element that does not occur keeps a sequence repetition-free. */
  lemma {:induction false} NoDupSnoc<T>(s: seq<T>, x: T)
    requires NoDup(s) && x !in s
    ensures NoDup(s + [x])
  {
    if s == [] {
      assert [x][1..] == [];
    } else {
      assert (s + [x])[1..] == s[1..] + [x];
      NoDupSnoc(s[1..], x);
    }
  }

  /**
   * Splicing position `i` out of a repetition-free sequence leaves a
   * repetition-free sequence that no longer holds the element that was there.
   */
  lemma {:induction false} NoDupSplice<T>(s: seq<T>, i: int)
    requires NoDup(s) && 0 <= i < |s|
    ensures NoDup(s[..i] + s[i + 1..]) && s[i] !in s[..i] + s[i + 1..]
  {
    if i == 0 {
      assert s[..i] + s[i + 1..] == s[1..];
    } else {
      var t := s[1..];
      NoDupSplice(t, i - 1);
      var u := t[..i - 1] + t[i..];
      assert s[..i] + s[i + 1..] == [s[0]] + u;
      assert t == t[..i - 1] + [t[i - 1]] + t[i..];
      assert s[0] !in u;
      assert ([s[0]] + u)[1..] == u;
    }
  }

  /** `s` with every occurrence of `k` dropped; the other keys keep their relative order. */
  function Without<T(==,!new)>(s: seq<T>, k: T): (r: seq<T>)
    ensures forall x :: x in r <==> x in s && x != k
    ensures |r| <= |s|
  {
    if s == [] then []
    else if s[0] == k then Without(s[1..], k)
    else [s[0]] + Without(s[1..], k)
  }

  /** The recency order after key `k` has been used: `k` becomes the most recent key. */
  function MoveToBack(s: seq<int>, k: int): seq<int> {
    Without(s, k) + [k]
  }

  lemma {:induction false} WithoutAbsent<T(!new)>(s: seq<T>, k: T)
    requires k !in s
    ensures Without(s, k) == s
  {
    if s != [] {
      WithoutAbsent(s[1..], k);
    }
  }

  /** Dropping a key that occurs once, at position `i`, is splicing position `i` out. */
  lemma {:induction false} WithoutAt<T(!new)>(s: seq<T>, i: int)
    requires NoDup(s) && 0 <= i < |s|
    ensures Without(s, s[i]) == s[..i] + s[i + 1..]
  {
    if i == 0 {
      WithoutAbsent(s[1..], s[0]);
    } else {
      assert s[1..][i - 1] == s[i];
      WithoutAt(s[1..], i - 1);
      assert [s[0]] + (s[1..][..i - 1] + s[1..][i..]) == s[..i] + s[i + 1..];
    }
  }

  /** Dropping the first element of a repetition-free sequence is taking its tail. */
  lemma WithoutFirst<T(!new)>(s: seq<T>)
    requires NoDup(s) && s != []
    ensures Without(s, s[0]) == s[1..]
  {
    WithoutAbsent(s[1..], s[0]);
  }

  /** Dropping `k` from a sequence extended at the back. */
  lemma {:induction false} WithoutAppend<T(!new)>(s: seq<T>, x: T, k: T)
    ensures Without(s + [x], k) == Without(s, k) + (if x == k then [] else [x])
  {
    if s == [] {
      assert Without([x], k) == (if x == k then [] else [x]);
    } else {
      assert (s + [x])[0] == s[0] && (s + [x])[1..] == s[1..] + [x];
      WithoutAppend(s[1..], x, k);
    }
  }

  lemma {:induction false} NoDupWithout<T(!new)>(s: seq<T>, k: T)
    requires NoDup(s)
    ensures NoDup(Without(s, k))
  {
    if s != [] {
      NoDupWithout(s[1..], k);
      if s[0] != k {
        var w := Without(s[1..], k);
        assert ([s[0]] + w)[1..] == w;
      }
    }
  }

  /** A sequence without repetitions has as many elements as the set of its elements. */
  lemma {:induction false} DistinctCard(s: seq<int>)
    requires NoDup(s)
    ensures |set x | x in s| == |s|
  {
    if s != [] {
      DistinctCard(s[1..]);
      assert (set x | x in s) == {s[0]} + (set x | x in s[1..]);
    }
  }

  /** The dictionary together with the recency list. */
  datatype Cache = Cache(order: seq<int>, entries: map<int, int>)

  /**
   * The invariant of the cache: each key occurs once in the recency list, the
   * list and the dictionary hold the same keys, and there are at most
   * `capacity` of them.
   */
  ghost predicate Inv(c: Cache, capacity: int) {
    && NoDup(c.order)
    && (forall k :: k in c.order <==> k in c.entries)
    && |c.order| <= capacity
  }

  /** Under the invariant, the dictionary's size is the length of the recency list. */
  lemma {:induction false} InvSize(c: Cache, capacity: int)
    requires Inv(c, capacity)
    ensures |c.entries| == |c.order|
  {
    DistinctCard(c.order);
    forall x ensures x in c.entries.Keys <==> x in set y | y in c.order {
    }
    assert c.entries.Keys == set x | x in c.order;
  }

  /** The cache just built, or just reset. */
  function Empty(): Cache {
    Cache([], map[])
  }

  /** What `get` returns: the stored value, or -1 for a key that is not cached. */
  function GetValue(c: Cache, k: int): int {
    if k in c.entries then c.entries[k] else -1
  }

  /** The cache after `get(k)`: a cached key becomes the most recently used one. */
  function AfterGet(c: Cache, k: int): Cache {
    if k in c.entries then Cache(MoveToBack(c.order, k), c.entries) else c
  }

  /** The cache after evicting its least recently used key. */
  function Evict(c: Cache): Cache
    requires c.order != []
  {
    Cache(c.order[1..], c.entries - {c.order[0]})
  }

  /** The cache with a new key `k` appended as the most recently used one, holding `v`. */
  function Insert(c: Cache, k: int, v: int): Cache {
    Cache(c.order + [k], c.entries[k := v])
  }

  /**
   * The cache after `put(k, v)`: an existing key is overwritten and becomes the
   * most recent one; a new key first evicts the least recently used key when
   * the dictionary already holds `capacity` keys, then is appended.
   */
  function AfterPut(c: Cache, capacity: int, k: int, v: int): Cache
    requires Inv(c, capacity) && capacity > 0
  {
    InvSize(c, capacity);
    if k in c.entries then
      Cache(MoveToBack(c.order, k), c.entries[k := v])
    else
      var kept := if |c.entries| >= capacity then Evict(c) else c;
      Insert(kept, k, v)
  }

  /** The cache after `delete(k)`. */
  function AfterDelete(c: Cache, k: int): Cache {
    if k !in c.entries then c else Cache(Without(c.order, k), c.entries - {k})
  }

  /** `get` on a cached key: it returns the stored value and moves the key to the most recent end. */
  lemma GetHit(c: Cache, capacity: int, k: int)
    requires Inv(c, capacity) && k in c.entries
    ensures GetValue(c, k) == c.entries[k]
    ensures AfterGet(c, k).entries == c.entries
    ensures |AfterGet(c, k).order| == |c.order|
    ensures AfterGet(c, k).order[|c.order| - 1] == k
    ensures Without(AfterGet(c, k).order, k) == Without(c.order, k)
    ensures Inv(AfterGet(c, k), capacity)
  {
    MoveToBackFacts(c.order, k);
  }

  /**
   * Moving a key of a repetition-free list to the back keeps the list's length
   * and its keys, puts the key last, keeps the other keys' relative order and
   * keeps the list repetition-free.
   */
  lemma MoveToBackFacts(s: seq<int>, k: int)
    requires NoDup(s) && k in s
    ensures |MoveToBack(s, k)| == |s|
    ensures MoveToBack(s, k)[|s| - 1] == k
    ensures forall x :: x in MoveToBack(s, k) <==> x in s
    ensures Without(MoveToBack(s, k), k) == Without(s, k)
    ensures NoDup(MoveToBack(s, k))
  {
    var i :| 0 <= i < |s| && s[i] == k;
    WithoutAt(s, i);
    var w := Without(s, k);
    WithoutAppend(w, k, k);
    assert k !in w;
    WithoutAbsent(w, k);
    NoDupWithout(s, k);
    NoDupSnoc(w, k);
  }

  /** `put` on a cached key: the value is overwritten and the key becomes the most recent one. */
  lemma PutExisting(c: Cache, capacity: int, k: int, v: int)
    requires Inv(c, capacity) && capacity > 0 && k in c.entries
    ensures AfterPut(c, capacity, k, v).entries == c.entries[k := v]
    ensures |AfterPut(c, capacity, k, v).entries| == |c.entries|
    ensures |AfterPut(c, capacity, k, v).order| == |c.order|
    ensures AfterPut(c, capacity, k, v).order[|c.order| - 1] == k
    ensures Without(AfterPut(c, capacity, k, v).order, k) == Without(c.order, k)
    ensures Inv(AfterPut(c, capacity, k, v), capacity)
  {
    MoveToBackFacts(c.order, k);
    assert c.entries[k := v].Keys == c.entries.Keys;
  }

  /**
   * Evicting the least recently used key of a non-empty cache keeps the
   * invariant, drops exactly that key and keeps the rest of the recency list.
   */
  lemma EvictFacts(c: Cache, capacity: int)
    requires Inv(c, capacity) && c.order != []
    ensures c.order[0] in c.entries && c.order[0] !in Evict(c).entries
    ensures |Evict(c).entries| == |c.entries| - 1
    ensures Inv(Evict(c), capacity)
  {
    var lru, rest := c.order[0], c.order[1..];
    assert lru !in rest && NoDup(rest);
    forall x ensures x in rest <==> x in c.entries - {lru} {
      if x in c.order && x != lru {
        var j :| 0 <= j < |c.order| && c.order[j] == x;
        assert rest[j - 1] == x;
      }
    }
    assert |c.entries - {lru}| == |c.entries| - 1 by {
      assert (c.entries - {lru}).Keys == c.entries.Keys - {lru};
    }
  }

  /**
   * Appending a key that is not cached to a cache that is not full keeps the
   * invariant and adds one entry.
   */
  lemma InsertFacts(c: Cache, capacity: int, k: int, v: int)
    requires Inv(c, capacity) && k !in c.entries && |c.entries| < capacity
    ensures |Insert(c, k, v).entries| == |c.entries| + 1
    ensures Inv(Insert(c, k, v), capacity)
  {
    InvSize(c, capacity);
    NoDupSnoc(c.order, k);
  }

  /**
   * `put` of a new key into a full cache: exactly the least recently used key
   * is evicted, every other key keeps its value and relative order, and the
   * new key is appended as the most recent one.
   */
  lemma PutEvicts(c: Cache, capacity: int, k: int, v: int)
    requires Inv(c, capacity) && capacity > 0 && k !in c.entries && |c.entries| >= capacity
    ensures c.order != []
    ensures AfterPut(c, capacity, k, v).order == c.order[1..] + [k]
    ensures AfterPut(c, capacity, k, v).entries.Keys == c.entries.Keys - {c.order[0]} + {k}
    ensures c.order[0] !in AfterPut(c, capacity, k, v).entries
    ensures AfterPut(c, capacity, k, v).entries[k] == v
    ensures forall x :: x in c.entries && x != c.order[0] ==> AfterPut(c, capacity, k, v).entries[x] == c.entries[x]
    ensures |AfterPut(c, capacity, k, v).entries| == |c.entries| == capacity
    ensures Inv(AfterPut(c, capacity, k, v), capacity)
  {
    InvSize(c, capacity);
    var e := Evict(c);
    assert k !in e.entries && Inv(e, capacity) && |e.entries| == |c.entries| - 1 && c.order[0] !in e.entries by {
      EvictFacts(c, capacity);
    }
    assert AfterPut(c, capacity, k, v) == Insert(e, k, v);
    assert Inv(Insert(e, k, v), capacity) && |Insert(e, k, v).entries| == |c.entries| by {
      InsertFacts(e, capacity, k, v);
    }
  }

  /** `put` of a new key into a cache that is not full: nothing is evicted and the key is appended. */
  lemma PutInserts(c: Cache, capacity: int, k: int, v: int)
    requires Inv(c, capacity) && capacity > 0 && k !in c.entries && |c.entries| < capacity
    ensures AfterPut(c, capacity, k, v).order == c.order + [k]
    ensures AfterPut(c, capacity, k, v).entries == c.entries[k := v]
    ensures |AfterPut(c, capacity, k, v).entries| == |c.entries| + 1
    ensures Inv(AfterPut(c, capacity, k, v), capacity)
  {
    InsertFacts(c, capacity, k, v);
  }

  /**
   * `delete` on a cached key removes it from both the dictionary and the
   * recency list; the other keys keep their relative order.
   */
  lemma DeletePresent(c: Cache, capacity: int, k: int)
    requires Inv(c, capacity) && k in c.entries
    ensures AfterDelete(c, k).entries == c.entries - {k}
    ensures k !in AfterDelete(c, k).order
    ensures |AfterDelete(c, k).order| == |c.order| - 1
    ensures forall i :: 0 <= i < |c.order| && c.order[i] == k ==> AfterDelete(c, k).order == c.order[..i] + c.order[i + 1..]
    ensures Inv(AfterDelete(c, k), capacity)
  {
    var i :| 0 <= i < |c.order| && c.order[i] == k;
    WithoutAt(c.order, i);
    NoDupWithout(c.order, k);
    forall j | 0 <= j < |c.order| && c.order[j] == k
      ensures AfterDelete(c, k).order == c.order[..j] + c.order[j + 1..]
    {
      WithoutAt(c.order, j);
    }
  }

  /** The public operations of the cache, for reasoning about sequences of calls. */
  datatype Op = Get(key: int) | Put(key: int, value: int) | Delete(key: int) | Reset

  /** The cache after one operation; every operation keeps the invariant. */
  function Step(c: Cache, capacity: int, op: Op): (r: Cache)
    requires Inv(c, capacity) && capacity > 0
    ensures Inv(r, capacity)
  {
    match op
    case Get(k) =>
      if k in c.entries then GetHit(c, capacity, k); AfterGet(c, k) else c
    case Put(k, v) =>
      if k in c.entries then
        PutExisting(c, capacity, k, v); AfterPut(c, capacity, k, v)
      else if |c.entries| >= capacity then
        PutEvicts(c, capacity, k, v); AfterPut(c, capacity, k, v)
      else
        PutInserts(c, capacity, k, v); AfterPut(c, capacity, k, v)
    case Delete(k) =>
      if k in c.entries then DeletePresent(c, capacity, k); AfterDelete(c, k) else c
    case Reset =>
      Empty()
  }

  /**
   * The cache after a sequence of operations. Whatever the sequence, the size
   * never exceeds `capacity` and the dictionary and recency list agree.
   */
  function Run(c: Cache, capacity: int, ops: seq<Op>): (r: Cache)
    requires Inv(c, capacity) && capacity > 0
    ensures Inv(r, capacity) && |r.entries| <= capacity
    decreases |ops|
  {
    if ops == [] then
      InvSize(c, capacity); c
    else
      Run(Step(c, capacity, ops[0]), capacity, ops[1..])
  }

  /** The dictionary after storing each pair `(k, v)` of `ps` in turn. */
  function Written(m: map<int, int>, ps: seq<(int, int)>): (r: map<int, int>)
    ensures r.Keys == m.Keys + set p | p in ps :: p.0
    decreases |ps|
  {
    if ps == [] then m
    else
      var w := Written(m[ps[0].0 := ps[0].1], ps[1..]);
      assert (set p | p in ps :: p.0) == {ps[0].0} + set p | p in ps[1..] :: p.0;
      w
  }

  /** The cache after `put(k, v)` for each pair `(k, v)` of `ps` in turn. */
  function Puts(c: Cache, capacity: int, ps: seq<(int, int)>): (r: Cache)
    requires Inv(c, capacity) && capacity > 0
    ensures Inv(r, capacity)
    decreases |ps|
  {
    if ps == [] then c
    else Puts(Step(c, capacity, Put(ps[0].0, ps[0].1)), capacity, ps[1..])
  }

  /** A subset is no larger than its superset. */
  lemma SubsetCard(a: set<int>, b: set<int>)
    requires a <= b
    ensures |a| <= |b|
  {
    assert b == a + (b - a) && a * (b - a) == {};
  }

  /**
   * Puts that touch at most `capacity` distinct keys, counting the keys
   * already cached, evict nothing: every key ends up holding the value last
   * written to it, and every key cached before is still cached.
   */
  lemma {:induction false} PutsWithinCapacity(c: Cache, capacity: int, ps: seq<(int, int)>)
    requires Inv(c, capacity) && capacity > 0
    requires |c.entries.Keys + set p | p in ps :: p.0| <= capacity
    ensures Puts(c, capacity, ps).entries == Written(c.entries, ps)
    ensures c.entries.Keys <= Puts(c, capacity, ps).entries.Keys
    decreases |ps|
  {
    if ps != [] {
      var k, v := ps[0].0, ps[0].1;
      var keys := c.entries.Keys + set p | p in ps :: p.0;
      assert k in keys && c.entries.Keys <= keys;
      var c' := Step(c, capacity, Put(k, v));
      assert c'.entries == c.entries[k := v] by {
        if k in c.entries {
          PutExisting(c, capacity, k, v);
        } else {
          assert |c.entries| < capacity by {
            SubsetCard(c.entries.Keys + {k}, keys);
          }
          PutInserts(c, capacity, k, v);
        }
      }
      assert |c'.entries.Keys + set p | p in ps[1..] :: p.0| <= capacity by {
        assert c'.entries.Keys + (set p | p in ps[1..] :: p.0) <= keys by {
          forall x | x in set p | p in ps[1..] :: p.0 ensures x in keys {
            var p :| p in ps[1..] && p.0 == x;
            assert p in ps;
          }
        }
        SubsetCard(c'.entries.Keys + set p | p in ps[1..] :: p.0, keys);
      }
      PutsWithinCapacity(c', capacity, ps[1..]);
    }
  }

}
