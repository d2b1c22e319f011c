/** The intrusive lists of include/linux_list.h.  A `Node` is a structure with an
    embedded `list_head` (next, prev) and `hlist_node` (hnext, pprev); `entry` is the
    structure around it, absent in a bare list head.  A poisoned link is null. */
module LinuxList {
  import opened Wrappers

  /** What `struct hlist_node **pprev` points to: the first pointer of a bucket or
      the next pointer of another node. */
  datatype Slot<T> = Poison | Bucket(table: array<Node?<T>>, index: nat) | After(node: Node<T>)

  class Node<T> {
    var next: Node?<T>
    var prev: Node?<T>
    var hnext: Node?<T>
    var pprev: Slot<T>
    const entry: Option<T>

    /** INIT_LIST_HEAD */
    constructor (entry: Option<T>)
      ensures next == this && prev == this && hnext == null && pprev == Poison
      ensures this.entry == entry
    {
      this.entry := entry;
      next, prev, hnext, pprev := this, this, null, Poison;
    }
  }

  ghost predicate Distinct<T>(s: seq<T>) {
    forall i, j :: 0 <= i < j < |s| ==> s[i] != s[j]
  }

  /** The list from head to head. */
  ghost function Ring<T>(head: Node<T>, nodes: seq<Node<T>>): seq<Node<T>> {
    [head] + nodes + [head]
  }

  /** A circular list: `nodes` are its members in order, each pointing to its
      neighbours, with the head closing the circle. */
  ghost predicate Circular<T>(head: Node<T>, nodes: seq<Node<T>>)
    reads head`next, head`prev, nodes`next, nodes`prev
  {
    var r := Ring(head, nodes);
    && head !in nodes && Distinct(nodes)
    && forall i :: 0 <= i <= |nodes| ==> r[i].next == r[i + 1] && r[i + 1].prev == r[i]
  }

  ghost function Insert<T>(nodes: seq<Node<T>>, i: nat, n: Node<T>): seq<Node<T>>
    requires i <= |nodes|
  {
    nodes[..i] + [n] + nodes[i..]
  }

  ghost function Remove<T>(nodes: seq<Node<T>>, i: nat): seq<Node<T>>
    requires i < |nodes|
  {
    nodes[..i] + nodes[i + 1..]
  }

  lemma DistinctInsert<T>(nodes: seq<Node<T>>, i: nat, n: Node<T>)
    requires Distinct(nodes) && i <= |nodes| && n !in nodes
    ensures Distinct(Insert(nodes, i, n))
    ensures forall x :: x in Insert(nodes, i, n) <==> x == n || x in nodes
  {
    var s := Insert(nodes, i, n);
    assert s[i] == n;
    forall x | x in nodes ensures x in s {
      var j :| 0 <= j < |nodes| && nodes[j] == x;
      assert s[if j < i then j else j + 1] == x;
    }
    forall j, k | 0 <= j < k < |s| ensures s[j] != s[k] {
      assert s[j] == if j < i then nodes[j] else if j == i then n else nodes[j - 1];
      assert s[k] == if k < i then nodes[k] else if k == i then n else nodes[k - 1];
    }
  }

  lemma DistinctRemove<T>(nodes: seq<Node<T>>, i: nat)
    requires Distinct(nodes) && i < |nodes|
    ensures Distinct(Remove(nodes, i))
    ensures forall x :: x in Remove(nodes, i) <==> x in nodes && x != nodes[i]
  {
    var s := Remove(nodes, i);
    assert forall j :: 0 <= j < |s| ==> s[j] == if j < i then nodes[j] else nodes[j + 1];
    forall x | x in nodes && x != nodes[i] ensures x in s {
      var j :| 0 <= j < |nodes| && nodes[j] == x;
      assert s[if j < i then j else j - 1] == x;
    }
  }

  /** The neighbours at a ring position. */
  lemma RingAt<T>(head: Node<T>, nodes: seq<Node<T>>, i: nat)
    requires Circular(head, nodes) && i <= |nodes|
    ensures var r := Ring(head, nodes);
            && r[i].next == r[i + 1] && r[i + 1].prev == r[i]
            && (r[i] == head || r[i] in nodes) && (r[i + 1] == head || r[i + 1] in nodes)
  {
  }

  /** __list_add, between the neighbours at ring positions `i` and `i + 1`. */
  method ListAddBetween<T>(n: Node<T>, prev: Node<T>, next: Node<T>,
                           ghost head: Node<T>, ghost nodes: seq<Node<T>>, ghost i: nat)
    requires Circular(head, nodes) && i <= |nodes|
    requires prev == Ring(head, nodes)[i] && next == Ring(head, nodes)[i + 1]
    requires n != head && n !in nodes
    modifies n`next, n`prev, prev`next, next`prev
    ensures Circular(head, Insert(nodes, i, n))
  {
    ghost var r := Ring(head, nodes);
    DistinctInsert(nodes, i, n);
    next.prev := n;
    n.next := next;
    n.prev := prev;
    prev.next := n;
    ghost var r' := Ring(head, Insert(nodes, i, n));
    assert r' == r[..i + 1] + [n] + r[i + 1..];
    forall j | 0 <= j <= |nodes| + 1 ensures r'[j].next == r'[j + 1] && r'[j + 1].prev == r'[j] {
      if j < i {
        assert r'[j] == r[j] && r'[j + 1] == r[j + 1];
      } else if j > i + 1 {
        assert r'[j] == r[j - 1] && r'[j + 1] == r[j];
      }
    }
  }

  /** list_add: behind `pos`, which is the head or a member. */
  method ListAdd<T>(n: Node<T>, pos: Node<T>, ghost head: Node<T>, ghost nodes: seq<Node<T>>, ghost i: nat)
    requires Circular(head, nodes) && i <= |nodes| && pos == Ring(head, nodes)[i]
    requires n != head && n !in nodes
    modifies n`next, n`prev, head`next, head`prev, nodes`next, nodes`prev
    ensures Circular(head, Insert(nodes, i, n))
  {
    RingAt(head, nodes, i);
    ListAddBetween(n, pos, pos.next, head, nodes, i);
  }

  /** list_add_tail: before `pos`, which is a member or the head. */
  method ListAddTail<T>(n: Node<T>, pos: Node<T>, ghost head: Node<T>, ghost nodes: seq<Node<T>>, ghost i: nat)
    requires Circular(head, nodes) && i <= |nodes| && pos == Ring(head, nodes)[i + 1]
    requires n != head && n !in nodes
    modifies n`next, n`prev, head`next, head`prev, nodes`next, nodes`prev
    ensures Circular(head, Insert(nodes, i, n))
  {
    RingAt(head, nodes, i);
    ListAddBetween(n, pos.prev, pos, head, nodes, i);
  }

  /** list_del */
  method ListDel<T>(n: Node<T>, ghost head: Node<T>, ghost nodes: seq<Node<T>>, ghost i: nat)
    requires Circular(head, nodes) && i < |nodes| && n == nodes[i]
    modifies head`next, head`prev, nodes`next, nodes`prev
    ensures Circular(head, Remove(nodes, i)) && n.next == null && n.prev == null
  {
    ghost var r := Ring(head, nodes);
    DistinctRemove(nodes, i);
    assert n == r[i + 1];
    assert n.next == r[i + 2] && n.prev == r[i];
    var prev, next := n.prev, n.next;
    next.prev := prev;
    prev.next := next;
    n.next, n.prev := null, null;
    ghost var r' := Ring(head, Remove(nodes, i));
    assert r' == r[..i + 1] + r[i + 2..];
    forall j | 0 <= j <= |nodes| - 1 ensures r'[j].next == r'[j + 1] && r'[j + 1].prev == r'[j] {
      if j < i {
        assert r'[j] == r[j] && r'[j + 1] == r[j + 1];
      } else if j > i {
        assert r'[j] == r[j + 1] && r'[j + 1] == r[j + 2];
      }
    }
  }

  // ---------- hash chains ----------

  ghost function Elements<T>(s: seq<Node<T>>): set<Node<T>> {
    set n | n in s
  }

  /** The chain of bucket `k`, whose first pointer is `first`: `chain` are its nodes
      in order, each one's `pprev` designating the pointer that points to it. */
  ghost predicate HashChain<T>(table: array<Node?<T>>, k: nat, first: Node?<T>, chain: seq<Node<T>>)
    reads Elements(chain)`hnext, Elements(chain)`pprev
  {
    && Distinct(chain)
    && (if chain == [] then first == null
        else first == chain[0] && chain[0].pprev == Bucket(table, k)
             && chain[|chain| - 1].hnext == null)
    && forall i :: 0 <= i < |chain| - 1 ==>
         chain[i].hnext == chain[i + 1] && chain[i + 1].pprev == After(chain[i])
  }

  /** Following `hnext` from the first pointer visits the chain in order. */
  lemma ChainLinks<T>(table: array<Node?<T>>, k: nat, first: Node?<T>, chain: seq<Node<T>>)
    requires HashChain(table, k, first, chain)
    ensures first == if chain == [] then null else chain[0]
    ensures forall i :: 0 <= i < |chain| - 1 ==> chain[i].hnext == chain[i + 1]
    ensures chain != [] ==> chain[|chain| - 1].hnext == null
  {
  }

  /** hlist_add_head */
  method HlistAddHead<T>(n: Node<T>, table: array<Node?<T>>, k: nat, ghost chain: seq<Node<T>>)
    requires k < table.Length && HashChain(table, k, table[k], chain) && n !in chain
    modifies n`hnext, n`pprev, Elements(chain)`pprev, table
    ensures HashChain(table, k, table[k], [n] + chain)
    ensures forall j :: 0 <= j < table.Length && j != k ==> table[j] == old(table[j])
  {
    var first := table[k];
    n.hnext := first;
    if first != null {
      first.pprev := After(n);
    }
    table[k] := n;
    n.pprev := Bucket(table, k);
    ghost var chain' := [n] + chain;
    forall i | 0 <= i < |chain'| - 1
      ensures chain'[i].hnext == chain'[i + 1] && chain'[i + 1].pprev == After(chain'[i])
    {
      if i > 0 {
        assert chain'[i] == chain[i - 1] && chain'[i + 1] == chain[i - 1 + 1];
      }
    }
  }

  /** hlist_del */
  method HlistDel<T>(n: Node<T>, ghost table: array<Node?<T>>, ghost k: nat, ghost chain: seq<Node<T>>, ghost i: nat)
    requires k < table.Length && HashChain(table, k, table[k], chain)
    requires i < |chain| && n == chain[i]
    modifies Elements(chain)`hnext, Elements(chain)`pprev, table
    ensures HashChain(table, k, table[k], Remove(chain, i))
    ensures forall j :: 0 <= j < table.Length && j != k ==> table[j] == old(table[j])
    ensures n.hnext == null && n.pprev == Poison
  {
    assert n.pprev == if i == 0 then Bucket(table, k) else After(chain[i - 1]) by {
      if i > 0 {
        assert chain[i - 1 + 1].pprev == After(chain[i - 1]);
      }
    }
    assert n.hnext == if i + 1 < |chain| then chain[i + 1] else null;
    var next, pprev := n.hnext, n.pprev;
    match pprev {
      case Bucket(t, j) => t[j] := next;
      case After(node) => node.hnext := next;
    }
    if next != null {
      next.pprev := pprev;
    }
    n.hnext, n.pprev := null, Poison;
    DistinctRemove(chain, i);
    ghost var chain' := Remove(chain, i);
    assert forall j :: 0 <= j < |chain'| ==> chain'[j] == if j < i then chain[j] else chain[j + 1];
    forall j | 0 <= j < |chain'| - 1
      ensures chain'[j].hnext == chain'[j + 1] && chain'[j + 1].pprev == After(chain'[j])
    {
      if j + 1 < i {
        assert chain'[j] == chain[j] && chain'[j + 1] == chain[j + 1];
      } else if j >= i {
        assert chain'[j] == chain[j + 1] && chain'[j + 1] == chain[j + 1 + 1];
      }
    }
  }
}
