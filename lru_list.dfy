/**
 * The doubly linked list of `ListNode`s between the two sentinels of
 * lru_cache.py, seen through the maps `next` and `prev` from a node reference
 * to the reference its attribute points at.
 *
 * `Linked(next, prev, head, tail, ns)` says that the list reads `head`, `ns`,
 * `tail` both forwards and backwards; `RemoveLinked` and `AppendLinked` show
 * that the pointer updates of `_remove` and `_add_to_tail` keep it so.
 */
module LruList {
  import opened LruSpec

  /** A reference to a `ListNode` object. */
  type Ref = nat

  /** The node after position `i` of `ns` in the list `head`, `ns`, `tail`; `i == -1` stands for `head`. */
  function NextOf(ns: seq<Ref>, i: int, tail: Ref): Ref
    requires -1 <= i < |ns|
  {
    if i + 1 < |ns| then ns[i + 1] else tail
  }

  /** The node before position `i` of `ns` in the list `head`, `ns`, `tail`; `i == |ns|` stands for `tail`. */
  function PrevOf(ns: seq<Ref>, i: int, head: Ref): Ref
    requires 0 <= i <= |ns|
  {
    if 0 < i then ns[i - 1] else head
  }

  /** Every node of `ns` has an entry in `m`. */
  ghost predicate Members(m: map<Ref, Ref>, ns: seq<Ref>) {
    forall j :: 0 <= j < |ns| ==> ns[j] in m
  }

  /** Following `next` from each node of `ns` leads to the node after it, and from the last one to `tail`. */
  ghost predicate NextChain(next: map<Ref, Ref>, ns: seq<Ref>, tail: Ref)
    requires Members(next, ns)
  {
    forall j {:trigger next[ns[j]]} :: 0 <= j < |ns| ==> next[ns[j]] == NextOf(ns, j, tail)
  }

  /** Following `prev` from each node of `ns` leads to the node before it, and from the first one to `head`. */
  ghost predicate PrevChain(prev: map<Ref, Ref>, ns: seq<Ref>, head: Ref)
    requires Members(prev, ns)
  {
    forall j {:trigger prev[ns[j]]} :: 0 <= j < |ns| ==> prev[ns[j]] == PrevOf(ns, j, head)
  }

  /**
   * With the links `next` and `prev`, following `next` from `head` and `prev`
   * from `tail` visits exactly the nodes `ns`, in order, each once.
   */
  ghost predicate Linked(next: map<Ref, Ref>, prev: map<Ref, Ref>, head: Ref, tail: Ref, ns: seq<Ref>) {
    && head != tail && head !in ns && tail !in ns && NoDup(ns)
    && head in next && next[head] == NextOf(ns, -1, tail)
    && tail in prev && prev[tail] == PrevOf(ns, |ns|, head)
    && Members(next, ns) && Members(prev, ns)
    && NextChain(next, ns, tail) && PrevChain(prev, ns, head)
  }

  /**
   * Splicing position `i` out of a duplicate-free `ns` leaves a
   * duplicate-free list of the other elements, in order, without `ns[i]`
   * and without anything `ns` did not hold.
   */
  lemma SpliceFacts<T>(ns: seq<T>, i: int, a: T, b: T, rest: seq<T>)
    requires NoDup(ns) && 0 <= i < |ns| && a !in ns && b !in ns && rest == ns[..i] + ns[i + 1..]
    ensures |rest| == |ns| - 1
    ensures forall j :: 0 <= j < |rest| ==> rest[j] == ns[if j < i then j else j + 1]
    ensures NoDup(rest)
    ensures ns[i] !in rest && a !in rest && b !in rest
    ensures forall x :: x in rest ==> x in ns
  {
    forall j | 0 <= j < |rest| ensures rest[j] == ns[if j < i then j else j + 1] {
    }
    NoDupSplice(ns, i);
    assert ns == ns[..i] + [ns[i]] + ns[i + 1..];
  }

  /** In a duplicate-free sequence, the element at position `a` occurs nowhere else. */
  lemma NoDupAt<T>(ns: seq<T>, a: int)
    requires NoDup(ns) && 0 <= a < |ns|
    ensures forall j :: 0 <= j < |ns| && j != a ==> ns[j] != ns[a]
  {
    NoDupPairwise(ns);
  }

  /** The chain argument of `NextChainRemove`, from the facts about the spliced list alone. */
  lemma NextChainSplice(next: map<Ref, Ref>, tail: Ref, ns: seq<Ref>, i: int, rest: seq<Ref>, p: Ref, n: Ref)
    requires 0 <= i < |ns| && |rest| == |ns| - 1 && n == NextOf(ns, i, tail)
    requires Members(next, ns) && NextChain(next, ns, tail)
    requires forall j :: 0 <= j < |rest| ==> rest[j] == ns[if j < i then j else j + 1]
    requires forall j :: 0 <= j < |rest| ==> (rest[j] == p <==> j == i - 1)
    ensures Members(next[p := n], rest) && NextChain(next[p := n], rest, tail)
  {
  }

  /** Pointing the node before position `i` at the node after it leaves the other positions chained forwards. */
  lemma NextChainRemove(next: map<Ref, Ref>, head: Ref, tail: Ref, ns: seq<Ref>, i: int)
    requires NoDup(ns) && head !in ns && tail !in ns && 0 <= i < |ns|
    requires Members(next, ns) && NextChain(next, ns, tail)
    ensures Members(next[PrevOf(ns, i, head) := NextOf(ns, i, tail)], ns[..i] + ns[i + 1..])
    ensures NextChain(next[PrevOf(ns, i, head) := NextOf(ns, i, tail)], ns[..i] + ns[i + 1..], tail)
  {
    var p, n := PrevOf(ns, i, head), NextOf(ns, i, tail);
    var rest := ns[..i] + ns[i + 1..];
    assert forall j :: 0 <= j < |rest| ==> rest[j] == ns[if j < i then j else j + 1] by {
      SpliceFacts(ns, i, head, tail, rest);
    }
    assert forall j :: 0 <= j < |rest| ==> (rest[j] == p <==> j == i - 1) by {
      SpliceFacts(ns, i, head, tail, rest);
      if 0 < i {
        NoDupAt(ns, i - 1);
      }
    }
    NextChainSplice(next, tail, ns, i, rest, p, n);
  }

  /** The chain argument of `PrevChainRemove`, from the facts about the spliced list alone. */
  lemma PrevChainSplice(prev: map<Ref, Ref>, head: Ref, ns: seq<Ref>, i: int, rest: seq<Ref>, n: Ref, p: Ref)
    requires 0 <= i < |ns| && |rest| == |ns| - 1 && p == PrevOf(ns, i, head)
    requires Members(prev, ns) && PrevChain(prev, ns, head)
    requires forall j :: 0 <= j < |rest| ==> rest[j] == ns[if j < i then j else j + 1]
    requires forall j :: 0 <= j < |rest| ==> (rest[j] == n <==> j == i)
    ensures Members(prev[n := p], rest) && PrevChain(prev[n := p], rest, head)
  {
  }

  /** Pointing the node after position `i` back at the node before it leaves the other positions chained backwards. */
  lemma PrevChainRemove(prev: map<Ref, Ref>, head: Ref, tail: Ref, ns: seq<Ref>, i: int)
    requires NoDup(ns) && head !in ns && tail !in ns && 0 <= i < |ns|
    requires Members(prev, ns) && PrevChain(prev, ns, head)
    ensures Members(prev[NextOf(ns, i, tail) := PrevOf(ns, i, head)], ns[..i] + ns[i + 1..])
    ensures PrevChain(prev[NextOf(ns, i, tail) := PrevOf(ns, i, head)], ns[..i] + ns[i + 1..], head)
  {
    var p, n := PrevOf(ns, i, head), NextOf(ns, i, tail);
    var rest := ns[..i] + ns[i + 1..];
    assert forall j :: 0 <= j < |rest| ==> rest[j] == ns[if j < i then j else j + 1] by {
      SpliceFacts(ns, i, head, tail, rest);
    }
    assert forall j :: 0 <= j < |rest| ==> (rest[j] == n <==> j == i) by {
      SpliceFacts(ns, i, head, tail, rest);
      if i + 1 < |ns| {
        NoDupAt(ns, i + 1);
      }
    }
    PrevChainSplice(prev, head, ns, i, rest, n, p);
  }

  /**
   * Joining the neighbours of the node at position `i` of a linked list to
   * each other leaves the list without position `i` linked.
   */
  lemma RemoveLinkedAt(next: map<Ref, Ref>, prev: map<Ref, Ref>, head: Ref, tail: Ref, ns: seq<Ref>, i: int)
    requires Linked(next, prev, head, tail, ns) && 0 <= i < |ns|
    ensures PrevOf(ns, i, head) in next && NextOf(ns, i, tail) in prev
    ensures Linked(next[PrevOf(ns, i, head) := NextOf(ns, i, tail)], prev[NextOf(ns, i, tail) := PrevOf(ns, i, head)], head, tail, ns[..i] + ns[i + 1..])
  {
    var p, n := PrevOf(ns, i, head), NextOf(ns, i, tail);
    var rest := ns[..i] + ns[i + 1..];
    assert p in next && n in prev by {
      if 0 < i {
        assert ns[i - 1] in next;
      }
      if i + 1 < |ns| {
        assert ns[i + 1] in prev;
      }
    }
    assert NoDup(rest) && head !in rest && tail !in rest by {
      SpliceFacts(ns, i, head, tail, rest);
    }
    assert Members(next[p := n], rest) && NextChain(next[p := n], rest, tail) by {
      NextChainRemove(next, head, tail, ns, i);
    }
    assert Members(prev[n := p], rest) && PrevChain(prev[n := p], rest, head) by {
      PrevChainRemove(prev, head, tail, ns, i);
    }
    assert next[p := n][head] == NextOf(rest, -1, tail) by {
      if i != 0 {
        SpliceFacts(ns, i, head, tail, rest);
        assert next[p := n][head] == next[head] == ns[0] == rest[0];
      }
    }
    assert prev[n := p][tail] == PrevOf(rest, |rest|, head) by {
      if i != |ns| - 1 {
        SpliceFacts(ns, i, head, tail, rest);
        assert n != tail && prev[n := p][tail] == prev[tail] == ns[|ns| - 1] == rest[|rest| - 1];
      }
    }
  }

  /**
   * `_remove` on a linked node `x`: both its links are set, and joining its
   * neighbours to each other leaves exactly the other nodes linked, in the
   * same order.
   */
  lemma RemoveLinked(next: map<Ref, Ref>, prev: map<Ref, Ref>, head: Ref, tail: Ref, ns: seq<Ref>, x: Ref)
    requires Linked(next, prev, head, tail, ns) && x in ns
    ensures x in prev && x in next && prev[x] in next && next[x] in prev
    ensures Linked(next[prev[x] := next[x]], prev[next[x] := prev[x]], head, tail, Without(ns, x))
  {
    var i :| 0 <= i < |ns| && ns[i] == x;
    assert next[x] == NextOf(ns, i, tail) && prev[x] == PrevOf(ns, i, head);
    assert Without(ns, x) == ns[..i] + ns[i + 1..] by {
      WithoutAt(ns, i);
    }
    RemoveLinkedAt(next, prev, head, tail, ns, i);
  }

  /** Clearing the links of a node outside the list changes nothing the list depends on. */
  lemma LinkedUntouched(next: map<Ref, Ref>, prev: map<Ref, Ref>, head: Ref, tail: Ref, ns: seq<Ref>, r: Ref)
    requires Linked(next, prev, head, tail, ns) && r !in ns && r != head && r != tail
    ensures Linked(next - {r}, prev - {r}, head, tail, ns)
  {
  }

  /**
   * `_add_to_tail` of a node `x` that is not linked: it becomes the last node
   * before `tail`, after all the nodes that were linked.
   */
  lemma {:induction false} AppendLinked(next: map<Ref, Ref>, prev: map<Ref, Ref>, head: Ref, tail: Ref, ns: seq<Ref>, x: Ref)
    requires Linked(next, prev, head, tail, ns) && x !in ns && x != head && x != tail
    ensures prev[tail] in next
    ensures Linked(next[prev[tail] := x][x := tail], prev[x := prev[tail]][tail := x], head, tail, ns + [x])
  {
    var p := PrevOf(ns, |ns|, head);
    var next', prev' := next[p := x][x := tail], prev[x := p][tail := x];
    var ns' := ns + [x];
    NoDupSnoc(ns, x);
    if 0 < |ns| {
      NoDupAt(ns, |ns| - 1);
    }
    forall j | 0 <= j < |ns'| ensures ns'[j] in next' && ns'[j] in prev' {
      if j < |ns| {
        assert ns'[j] == ns[j];
      }
    }
    forall j | 0 <= j < |ns'| ensures next'[ns'[j]] == NextOf(ns', j, tail) {
      if j < |ns| {
        assert ns'[j] == ns[j] && (ns[j] == p <==> j == |ns| - 1);
        assert next[ns[j]] == NextOf(ns, j, tail);
      }
    }
    forall j | 0 <= j < |ns'| ensures prev'[ns'[j]] == PrevOf(ns', j, head) {
      if j < |ns| {
        assert ns'[j] == ns[j];
        assert prev[ns[j]] == PrevOf(ns, j, head);
      }
    }
  }

}
