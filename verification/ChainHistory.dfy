/** Whole histories of a chain list: any sequence of add, add_tail and del. */
module ChainHistory {
  import opened Bytes
  import opened LinuxList
  import opened ChainLists

  datatype ListOp = Add(c: Chain) | AddTail(c: Chain) | Del(c: Chain)

  /** What the methods of ChainList say about their two ghost sequences. */
  datatype State = State(nodes: seq<Chain>, order: seq<Chain>)

  ghost function Without(s: seq<Chain>, c: Chain): seq<Chain> {
    if s == [] then []
    else if s[0] == c then s[1..]
    else [s[0]] + Without(s[1..], c)
  }

  ghost function Apply(s: State, op: ListOp): State {
    match op
    case Add(c) => State([c] + s.nodes, [c] + s.order)
    case AddTail(c) => State(s.nodes + [c], [c] + s.order)
    case Del(c) => State(Without(s.nodes, c), Without(s.order, c))
  }

  ghost function Run(ops: seq<ListOp>): State {
    if ops == [] then State([], []) else Apply(Run(ops[..|ops| - 1]), ops[|ops| - 1])
  }

  /** A chain is added only while it is not linked, and deleted only while it is. */
  ghost predicate Legal(ops: seq<ListOp>) {
    ops == []
    || (Legal(ops[..|ops| - 1])
        && if ops[|ops| - 1].Del? then ops[|ops| - 1].c in Run(ops[..|ops| - 1]).nodes
           else ops[|ops| - 1].c !in Run(ops[..|ops| - 1]).nodes)
  }

  /** When a chain was last inserted: one plus the number of that operation. */
  ghost function Inserted(ops: seq<ListOp>, c: Chain): nat {
    if ops == [] then 0
    else
      var op := ops[|ops| - 1];
      if !op.Del? && op.c == c then |ops| else Inserted(ops[..|ops| - 1], c)
  }

  lemma {:induction false} InsertedBound(ops: seq<ListOp>, c: Chain)
    ensures Inserted(ops, c) <= |ops|
  {
    if ops != [] {
      InsertedBound(ops[..|ops| - 1], c);
    }
  }

  /** The deletion of the model is the removal the methods perform. */
  lemma {:induction false} WithoutIsRemove(s: seq<Chain>, i: nat)
    requires Distinct(s) && i < |s|
    ensures Without(s, s[i]) == Remove(s, i)
  {
    if i == 0 {
      assert Remove(s, 0) == s[1..];
    } else {
      assert s[0] != s[i];
      WithoutIsRemove(s[1..], i - 1);
      assert Remove(s, i) == [s[0]] + Remove(s[1..], i - 1);
    }
  }

  ghost predicate SameMembers(s: seq<Chain>, t: seq<Chain>) {
    (forall c <- s :: c in t) && (forall c <- t :: c in s)
  }

  /** Later insertions come first. */
  ghost predicate LatestFirst(ops: seq<ListOp>, order: seq<Chain>) {
    forall i, j :: 0 <= i < j < |order| ==> Inserted(ops, order[i]) > Inserted(ops, order[j])
  }

  /** After every history, the index holds exactly the members of the list, without
      duplicates, ordered by when they were last inserted. */
  lemma {:induction false} HistoryInvariant(ops: seq<ListOp>)
    requires Legal(ops)
    ensures Distinct(Run(ops).nodes) && Distinct(Run(ops).order)
    ensures SameMembers(Run(ops).nodes, Run(ops).order)
    ensures LatestFirst(ops, Run(ops).order)
  {
    if ops != [] {
      var before, op := ops[..|ops| - 1], ops[|ops| - 1];
      HistoryInvariant(before);
      var s := Run(before);
      match op {
        case Add(c) => InsertionKeeps(ops, s, c);
        case AddTail(c) => InsertionKeeps(ops, s, c);
        case Del(c) => DeletionKeeps(ops, s, c);
      }
    }
  }

  lemma InsertionKeeps(ops: seq<ListOp>, s: State, c: Chain)
    requires ops != [] && !ops[|ops| - 1].Del? && ops[|ops| - 1].c == c && c !in s.nodes
    requires Distinct(s.nodes) && Distinct(s.order) && SameMembers(s.nodes, s.order)
    requires LatestFirst(ops[..|ops| - 1], s.order)
    ensures Distinct([c] + s.nodes) && Distinct(s.nodes + [c]) && Distinct([c] + s.order)
    ensures SameMembers([c] + s.nodes, [c] + s.order) && SameMembers(s.nodes + [c], [c] + s.order)
    ensures LatestFirst(ops, [c] + s.order)
  {
    var order := [c] + s.order;
    forall i, j | 0 <= i < j < |order| ensures Inserted(ops, order[i]) > Inserted(ops, order[j]) {
      assert order[j] == s.order[j - 1] && order[j] in s.order;
      if i == 0 {
        InsertedBound(ops[..|ops| - 1], order[j]);
      } else {
        assert order[i] == s.order[i - 1] && order[i] in s.order;
      }
    }
  }

  lemma DeletionKeeps(ops: seq<ListOp>, s: State, c: Chain)
    requires ops != [] && ops[|ops| - 1] == Del(c) && c in s.nodes
    requires Distinct(s.nodes) && Distinct(s.order) && SameMembers(s.nodes, s.order)
    requires LatestFirst(ops[..|ops| - 1], s.order)
    ensures Distinct(Without(s.nodes, c)) && Distinct(Without(s.order, c))
    ensures SameMembers(Without(s.nodes, c), Without(s.order, c))
    ensures LatestFirst(ops, Without(s.order, c))
  {
    var i :| 0 <= i < |s.nodes| && s.nodes[i] == c;
    var j :| 0 <= j < |s.order| && s.order[j] == c;
    WithoutIsRemove(s.nodes, i);
    WithoutIsRemove(s.order, j);
    RemovedMembers(s.nodes, i, s.order, j);
    RemovedOrder(ops, s.order, j);
  }

  lemma RemovedMembers(s: seq<Chain>, i: nat, t: seq<Chain>, j: nat)
    requires i < |s| && j < |t| && s[i] == t[j]
    requires Distinct(s) && Distinct(t) && SameMembers(s, t)
    ensures Distinct(Remove(s, i)) && Distinct(Remove(t, j)) && SameMembers(Remove(s, i), Remove(t, j))
  {
    DistinctRemove(s, i);
    DistinctRemove(t, j);
  }

  lemma RemovedOrder(ops: seq<ListOp>, order: seq<Chain>, j: nat)
    requires ops != [] && ops[|ops| - 1].Del? && j < |order|
    requires LatestFirst(ops[..|ops| - 1], order)
    ensures LatestFirst(ops, Remove(order, j))
  {
    var smaller, before := Remove(order, j), ops[..|ops| - 1];
    forall a, b | 0 <= a < b < |smaller| ensures Inserted(ops, smaller[a]) > Inserted(ops, smaller[b]) {
      var a', b' := if a < j then a else a + 1, if b < j then b else b + 1;
      assert smaller[a] == order[a'] && smaller[b] == order[b'];
      assert Inserted(before, order[a']) > Inserted(before, order[b']);
    }
  }

  /** The lookup by name after any history: null exactly when no member of the list
      has the name, otherwise the member with that name that was inserted last. */
  lemma LookupIsLatest(ops: seq<ListOp>, name: CString)
    requires Legal(ops)
    ensures var s, c := Run(ops), FirstNamed(Run(ops).order, name);
            if c == null then forall x <- s.nodes :: NameOf(x) != name
            else c in s.nodes && NameOf(c) == name
                 && forall x <- s.nodes :: NameOf(x) == name ==> Inserted(ops, x) <= Inserted(ops, c)
  {
    HistoryInvariant(ops);
    LatestNamed(ops, Run(ops), name);
  }

  lemma LatestNamed(ops: seq<ListOp>, s: State, name: CString)
    requires SameMembers(s.nodes, s.order) && LatestFirst(ops, s.order)
    ensures var c := FirstNamed(s.order, name);
            if c == null then forall x <- s.nodes :: NameOf(x) != name
            else c in s.nodes && NameOf(c) == name
                 && forall x <- s.nodes :: NameOf(x) == name ==> Inserted(ops, x) <= Inserted(ops, c)
  {
    hide FirstNamed, Inserted;
    FirstNamedMeans(s.order, name);
    var c := FirstNamed(s.order, name);
    if c != null {
      var i :| 0 <= i < |s.order| && s.order[i] == c && NameOf(s.order[i]) == name
            && forall j :: 0 <= j < i ==> NameOf(s.order[j]) != name;
      assert s.order[i] in s.nodes;
      forall x | x in s.nodes && NameOf(x) == name ensures Inserted(ops, x) <= Inserted(ops, c) {
        assert x in s.order;
        var j :| 0 <= j < |s.order| && s.order[j] == x;
        assert j >= i;
      }
    }
  }

  // ---------- the histories in memory ----------

  /** One operation of a caller. */
  method Perform(list: ChainList, op: ListOp, ghost s: State)
    requires list.Valid() && list.nodes == s.nodes && list.order == s.order && op.c != list.head
    requires if op.Del? then op.c in s.nodes else op.c !in s.nodes
    modifies list, op.c, list.nameHash, list.head`next, list.head`prev, Elements(list.nodes)
    ensures list.Valid() && list.nodes == Apply(s, op).nodes && list.order == Apply(s, op).order
  {
    hide Without;
    match op
    case Add(c) => list.Add(c);
    case AddTail(c) => list.AddTail(c);
    case Del(c) =>
      ghost var i :| 0 <= i < |list.nodes| && list.nodes[i] == c;
      ghost var j :| 0 <= j < |list.order| && list.order[j] == c;
      DistinctNodes(list);
      WithoutIsRemove(list.nodes, i);
      WithoutIsRemove(list.order, j);
      ChainList.Del(c, list, i, j);
  }

  lemma DistinctNodes(list: ChainList)
    requires list.Valid()
    ensures Distinct(list.nodes) && Distinct(list.order)
  {
  }

  ghost function Chains(ops: seq<ListOp>): set<Chain> {
    set op <- ops :: op.c
  }

  lemma {:induction false} MembersAreChains(ops: seq<ListOp>, i: nat)
    requires Legal(ops) && i <= |ops|
    ensures Legal(ops[..i]) && forall c <- Run(ops[..i]).nodes :: c in Chains(ops)
    decreases |ops|
  {
    hide Without;
    if i == |ops| {
      assert ops[..i] == ops;
    }
    if ops != [] {
      var n := |ops| - 1;
      var before, op := ops[..n], ops[n];
      MembersAreChains(before, if i < n then i else n);
      assert before[..n] == before;
      assert i < n ==> before[..i] == ops[..i];
      assert op in ops && forall o <- before :: o in ops;
      if i == |ops| && op.Del? {
        WithoutShrinks(Run(before).nodes, op.c);
      }
    }
  }

  lemma {:induction false} WithoutShrinks(s: seq<Chain>, c: Chain)
    ensures forall x <- Without(s, c) :: x in s
  {
    if s != [] && s[0] != c {
      WithoutShrinks(s[1..], c);
    }
  }

  /** Any history, performed on a new list, leaves the list and the index that the
      lemmas above speak about, and the buckets hold exactly the members of the list. */
  method Replay(ops: seq<ListOp>) returns (list: ChainList)
    requires Legal(ops)
    modifies Chains(ops)
    ensures fresh(list) && list.Valid()
    ensures list.nodes == Run(ops).nodes && list.order == Run(ops).order
    ensures ExactIndex(list)
  {
    hide Legal, Apply, Chains, ExactIndex;
    list := new ChainList();
    for i := 0 to |ops|
      invariant fresh(list) && fresh(list.head) && fresh(list.nameHash) && list.Valid()
      invariant list.nodes == Run(ops[..i]).nodes && list.order == Run(ops[..i]).order
    {
      LegalStep(ops, i);
      Perform(list, ops[i], Run(ops[..i]));
    }
    assert ops[..|ops|] == ops;
    ValidIsExact(list);
  }

  lemma LegalStep(ops: seq<ListOp>, i: nat)
    requires Legal(ops) && i < |ops|
    ensures ops[i].c in Chains(ops) && forall c <- Run(ops[..i]).nodes :: c in Chains(ops)
    ensures if ops[i].Del? then ops[i].c in Run(ops[..i]).nodes else ops[i].c !in Run(ops[..i]).nodes
    ensures Run(ops[..i + 1]) == Apply(Run(ops[..i]), ops[i])
  {
    MembersAreChains(ops, i);
    MembersAreChains(ops, i + 1);
    assert ops[..i + 1][..i] == ops[..i];
    assert ops[i] in ops;
  }
}
