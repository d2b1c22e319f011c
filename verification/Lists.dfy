/** A list head with its members: the rules of a chain, the elements of a set.  The
    operations are those of src/chain.c on rules and of src/set.c on elements. */
module Lists {
  import opened Wrappers
  import opened LinuxList

  class List<T> {
    const head: Node<T>
    ghost var nodes: seq<Node<T>>

    constructor ()
      ensures Valid() && nodes == [] && fresh(head)
    {
      head := new Node<T>(None);
      nodes := [];
    }

    ghost predicate Valid()
      reads this, head`next, head`prev, nodes`next, nodes`prev
    {
      Circular(head, nodes)
    }

    /** Not yet linked into this list. */
    ghost predicate Unlinked(n: Node<T>)
      reads this
    {
      n != head && n !in nodes
    }

    /** nftnl_chain_rule_add */
    method Add(n: Node<T>)
      requires Valid() && Unlinked(n)
      modifies this, n`next, n`prev, head`next, head`prev, nodes`next, nodes`prev
      ensures Valid() && nodes == [n] + old(nodes)
    {
      ListAdd(n, head, head, nodes, 0);
      assert Insert(nodes, 0, n) == [n] + nodes;
      nodes := [n] + nodes;
    }

    /** nftnl_chain_rule_add_tail, nftnl_set_elem_add */
    method AddTail(n: Node<T>)
      requires Valid() && Unlinked(n)
      modifies this, n`next, n`prev, head`next, head`prev, nodes`next, nodes`prev
      ensures Valid() && nodes == old(nodes) + [n]
    {
      ListAddTail(n, head, head, nodes, |nodes|);
      assert Insert(nodes, |nodes|, n) == nodes + [n];
      nodes := nodes + [n];
    }

    /** nftnl_chain_rule_insert_at: the new rule comes right before `pos`. */
    method InsertAt(n: Node<T>, pos: Node<T>, ghost k: nat)
      requires Valid() && Unlinked(n) && k < |nodes| && pos == nodes[k]
      modifies this, n`next, n`prev, head`next, head`prev, nodes`next, nodes`prev
      ensures Valid() && nodes == old(nodes)[..k] + [n] + old(nodes)[k..]
    {
      assert Ring(head, nodes)[k + 1] == pos;
      ListAddTail(n, pos, head, nodes, k);
      nodes := Insert(nodes, k, n);
    }

    /** nftnl_chain_rule_append_at: the new rule comes right behind `pos`. */
    method AppendAt(n: Node<T>, pos: Node<T>, ghost k: nat)
      requires Valid() && Unlinked(n) && k < |nodes| && pos == nodes[k]
      modifies this, n`next, n`prev, head`next, head`prev, nodes`next, nodes`prev
      ensures Valid() && nodes == old(nodes)[..k + 1] + [n] + old(nodes)[k + 1..]
    {
      assert Ring(head, nodes)[k + 1] == pos;
      ListAdd(n, pos, head, nodes, k + 1);
      nodes := Insert(nodes, k + 1, n);
    }

    /** nftnl_chain_rule_del, which gets the rule alone. */
    static method Del(n: Node<T>, ghost list: List<T>, ghost k: nat)
      requires list.Valid() && k < |list.nodes| && n == list.nodes[k]
      modifies list, list.head`next, list.head`prev, list.nodes`next, list.nodes`prev
      ensures list.Valid() && list.nodes == Remove(old(list.nodes), k)
    {
      ListDel(n, list.head, list.nodes, k);
      list.nodes := Remove(list.nodes, k);
    }

    /** nftnl_rule_lookup_byindex */
    method LookupByIndex(index: nat) returns (r: Node?<T>)
      requires Valid()
      ensures r == if index < |nodes| then nodes[index] else null
    {
      ghost var i := 0;
      var left: nat := index;
      var pos := head.next;
      RingAt(head, nodes, 0);
      while pos != head
        invariant i <= |nodes| && pos == if i < |nodes| then nodes[i] else head
        invariant left + i == index
        decreases |nodes| - i
      {
        if left == 0 {
          return pos;
        }
        left := left - 1;
        RingAt(head, nodes, i + 1);
        assert Ring(head, nodes)[i + 1] == nodes[i];
        pos := pos.next;
        i := i + 1;
      }
      r := null;
    }
  }

  /** The iterators of the library (rules, expressions, elements, chains): `cur` is
      the next element, or the list head read as if it were one. */
  class Iter<T> {
    const list: List<T>
    var cur: Node?<T>

    /** nftnl_set_elems_iter_create and its siblings */
    constructor (list: List<T>)
      requires list.Valid()
      ensures this.list == list && At(0)
    {
      this.list := list;
      RingAt(list.head, list.nodes, 0);
      cur := if list.head.next == list.head then null else list.head.next;
    }

    /** The iterator stands at position `k`: at element `k`, or at the head when `k`
        is the length of a list that is not empty. */
    ghost predicate At(k: nat)
      reads this, list
    {
      && k <= |list.nodes|
      && cur == if list.nodes == [] then null
                else if k < |list.nodes| then list.nodes[k] else list.head
    }

    /** nftnl_set_elems_iter_next and its siblings: one element a call, then NULL
        once, then the pass starts again. */
    method Next(ghost k: nat) returns (r: Node?<T>)
      requires list.Valid() && At(k)
      modifies this`cur
      ensures At(if k < |list.nodes| then k + 1 else 0)
      ensures r == if k < |list.nodes| then list.nodes[k] else null
    {
      var s := cur;
      if s == null {
        return null;
      }
      ghost var ring := Ring(list.head, list.nodes);
      RingAt(list.head, list.nodes, 0);
      if k < |list.nodes| {
        assert ring[k + 1] == list.nodes[k];
        RingAt(list.head, list.nodes, k + 1);
        assert k + 1 < |list.nodes| ==> ring[k + 2] == list.nodes[k + 1] != list.nodes[0];
      } else {
        assert ring[1] == list.nodes[0];
      }
      cur := s.next;
      if cur == list.head.next {
        return null;
      }
      r := s;
    }

    /** Going back one element: `iter->cur = list_entry(iter->cur->head.prev)`. */
    method StepBack(ghost k: nat)
      requires list.Valid() && At(k) && k > 0
      modifies this`cur
      ensures At(k - 1)
    {
      var ring := Ring(list.head, list.nodes);
      assert ring[k] == list.nodes[k - 1];
      RingAt(list.head, list.nodes, k);
      assert k < |list.nodes| ==> ring[k + 1] == list.nodes[k];
      cur := cur.prev;
    }
  }

  /** Where an iterator stands before call number `call`, and what that call returns:
      the passes repeat with period n + 1. */
  function Position(call: nat, n: nat): nat {
    if call == 0 then 0
    else
      var before := Position(call - 1, n);
      if before < n then before + 1 else 0
  }

  lemma {:induction false} PositionIsModulo(call: nat, n: nat)
    ensures Position(call, n) == call % (n + 1)
  {
    if call > 0 {
      PositionIsModulo(call - 1, n);
      NextModulo(call - 1, n + 1);
    }
  }

  lemma NextModulo(a: nat, d: nat)
    requires d > 0
    ensures (a + 1) % d == if a % d + 1 < d then a % d + 1 else 0
  {
    var q, m := a / d, a % d;
    if m + 1 < d {
      ModuloIs(a + 1, d, q, m + 1);
    } else {
      assert (q + 1) * d == q * d + d;
      ModuloIs(a + 1, d, q + 1, 0);
    }
  }

  lemma ModuloIs(a: nat, d: nat, q: nat, m: nat)
    requires m < d && a == q * d + m
    ensures a % d == m
  {
    var q', m' := a / d, a % d;
    assert a == d * q' + m';
    if q > q' {
      MultipleAtLeast(q, q', d);
    } else if q < q' {
      MultipleAtLeast(q', q, d);
    }
  }

  lemma MultipleAtLeast(x: nat, y: nat, d: nat)
    requires x > y
    ensures x * d >= y * d + d
  {
    assert x * d == y * d + (x - y) * d;
    assert (x - y) * d == d + (x - y - 1) * d;
  }

  /** Any number of calls on a list that does not change: call number k returns
      element k mod (n + 1), or NULL when that is n. */
  method CallNext<T>(iter: Iter<T>, calls: nat) returns (results: seq<Node?<T>>)
    requires iter.list.Valid() && iter.At(0)
    modifies iter`cur
    ensures |results| == calls
    ensures forall k :: 0 <= k < calls ==>
      var at := k % (|iter.list.nodes| + 1);
      results[k] == if at < |iter.list.nodes| then iter.list.nodes[at] else null
  {
    results := [];
    ghost var n := |iter.list.nodes|;
    for i := 0 to calls
      invariant iter.At(Position(i, n))
      invariant |results| == i
      invariant forall k :: 0 <= k < i ==>
        results[k] == if k % (n + 1) < n then iter.list.nodes[k % (n + 1)] else null
    {
      PositionIsModulo(i, n);
      var r := iter.Next(Position(i, n));
      results := results + [r];
    }
  }
}
