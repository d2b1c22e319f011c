/** The list of chains with its name index (src/chain.c): one circular list and 512
    hash chains that share their nodes.  src/set.c has the same structure for sets. */
module ChainLists {
  import opened Wrappers
  import opened Bytes
  import opened LinuxList

  const CHAIN_NAME_HSIZE := 512

  /** A chain as its list sees it: the node embedded in it, and its name, which
      does not change. */
  type Chain = Node<CString>
  type MaybeChain = Node?<CString>

  /** A plain char is signed. */
  function CharValue(b: byte): int {
    if b < 128 then b else b - 256
  }

  /** djb_hash over the first characters of a name, in 32-bit arithmetic. */
  function DjbHash(name: bytes): u32 {
    if name == [] then 5381
    else (DjbHash(name[..|name| - 1]) * 33 + CharValue(name[|name| - 1])) % 0x1_0000_0000
  }

  method ComputeDjbHash(name: CString) returns (hash: u32)
    ensures hash == DjbHash(name)
  {
    hash := 5381;
    for i := 0 to |name|
      invariant hash == DjbHash(name[..i])
    {
      hash := (hash * 32 + hash + CharValue(name[i])) % 0x1_0000_0000;
      assert name[..i + 1][..i] == name[..i];
    }
    assert name[..|name|] == name;
  }

  function KeyOf(name: CString): nat {
    DjbHash(name) % CHAIN_NAME_HSIZE
  }

  /** The hash: 5381 for the empty name; each character, taken as signed, is added to 33
      times what was there, modulo 2 to the 32; the bucket is that modulo 512. */
  lemma HashGrows(name: bytes, c: byte)
    ensures DjbHash([]) == 5381
    ensures c < 128 ==> DjbHash(name + [c]) == (DjbHash(name) * 33 + c) % 0x1_0000_0000
    ensures c >= 128 ==> DjbHash(name + [c]) == (DjbHash(name) * 33 + c - 256) % 0x1_0000_0000
    ensures 0 !in name ==> KeyOf(name) == DjbHash(name) % 512
  {
    assert (name + [c])[..|name|] == name;
  }

  function NameOf(c: Chain): CString {
    if c.entry.Some? then c.entry.value else []
  }

  /** The chains of `order` that belong into bucket `k`. */
  ghost function InBucket(order: seq<Chain>, k: nat): (b: seq<Chain>)
    ensures forall c <- b :: c in order && KeyOf(NameOf(c)) == k
  {
    if order == [] then []
    else (if KeyOf(NameOf(order[0])) == k then [order[0]] else []) + InBucket(order[1..], k)
  }

  /** The first chain of `order` with a name. */
  ghost function FirstNamed(order: seq<Chain>, name: CString): MaybeChain {
    if order == [] then null
    else if NameOf(order[0]) == name then order[0]
    else FirstNamed(order[1..], name)
  }

  lemma {:induction false} InBucketComplete(order: seq<Chain>, k: nat, c: Chain)
    requires c in order && KeyOf(NameOf(c)) == k
    ensures c in InBucket(order, k)
  {
    if c != order[0] {
      InBucketComplete(order[1..], k, c);
    }
  }

  lemma InBucketCons(r: Chain, order: seq<Chain>, k: nat)
    ensures InBucket([r] + order, k) == (if KeyOf(NameOf(r)) == k then [r] else []) + InBucket(order, k)
  {
    assert ([r] + order)[1..] == order;
  }

  lemma {:induction false} FirstNamedInBucket(order: seq<Chain>, name: CString)
    ensures FirstNamed(InBucket(order, KeyOf(name)), name) == FirstNamed(order, name)
  {
    if order != [] {
      FirstNamedInBucket(order[1..], name);
      var k := KeyOf(name);
      if KeyOf(NameOf(order[0])) == k {
        assert InBucket(order, k)[1..] == InBucket(order[1..], k);
      } else {
        assert InBucket(order, k) == InBucket(order[1..], k);
      }
    }
  }

  lemma InBucketOther(order: seq<Chain>, i: nat, k: nat)
    requires i < |order| && KeyOf(NameOf(order[i])) != k
    ensures InBucket(Remove(order, i), k) == InBucket(order, k)
  {
    var smaller := Remove(order, i);
    if i == 0 {
      assert smaller == order[1..];
    } else {
      InBucketOther(order[1..], i - 1, k);
      assert smaller[0] == order[0] && smaller[1..] == Remove(order[1..], i - 1);
    }
  }

  /** Removing a chain removes it from its own bucket. */
  lemma InBucketOwn(order: seq<Chain>, i: nat, k: nat) returns (j: nat)
    requires i < |order| && KeyOf(NameOf(order[i])) == k
    ensures j < |InBucket(order, k)| && InBucket(order, k)[j] == order[i]
    ensures InBucket(Remove(order, i), k) == Remove(InBucket(order, k), j)
  {
    if i == 0 {
      assert Remove(order, 0) == order[1..];
      j := 0;
      assert Remove(InBucket(order, k), 0) == InBucket(order[1..], k);
    } else {
      var r := InBucketOwn(order[1..], i - 1, k);
      j := InBucketOwnStep(order, i, k, r);
    }
  }

  lemma InBucketOwnStep(order: seq<Chain>, i: nat, k: nat, r: nat) returns (j: nat)
    requires 0 < i < |order|
    requires r < |InBucket(order[1..], k)| && InBucket(order[1..], k)[r] == order[i]
    requires InBucket(Remove(order[1..], i - 1), k) == Remove(InBucket(order[1..], k), r)
    ensures j < |InBucket(order, k)| && InBucket(order, k)[j] == order[i]
    ensures InBucket(Remove(order, i), k) == Remove(InBucket(order, k), j)
  {
    hide InBucket;
    var first, rest := order[0], InBucket(order[1..], k);
    assert order == [first] + order[1..];
    assert Remove(order, i) == [first] + Remove(order[1..], i - 1);
    InBucketCons(first, order[1..], k);
    InBucketCons(first, Remove(order[1..], i - 1), k);
    if KeyOf(NameOf(first)) == k {
      j := r + 1;
      assert [first] + Remove(rest, r) == Remove([first] + rest, j);
    } else {
      j := r;
      assert [] + rest == rest;
      assert [] + Remove(rest, r) == Remove(rest, r);
    }
  }

  class ChainList {
    const head: Chain
    const nameHash: array<MaybeChain>
    /** The members in list order. */
    ghost var nodes: seq<Chain>
    /** The members, the most recently inserted first. */
    ghost var order: seq<Chain>

    /** nftnl_chain_list_alloc */
    constructor ()
      ensures Valid() && nodes == [] && order == [] && fresh(head) && fresh(nameHash)
    {
      head := new Node<CString>(None);
      nameHash := new MaybeChain[CHAIN_NAME_HSIZE](_ => null);
      nodes, order := [], [];
    }

    /** The index agrees with the list: the same members, each in the bucket of its
        name's hash, the buckets chained in order of insertion. */
    ghost predicate Valid()
      reads this, head`next, head`prev, nodes`next, nodes`prev, nameHash, order`hnext, order`pprev
    {
      && nameHash.Length == CHAIN_NAME_HSIZE
      && Circular(head, nodes)
      && Distinct(order)
      && (forall c <- order :: c in nodes) && (forall c <- nodes :: c in order)
      && BucketsValid()
    }

    ghost predicate BucketsValid()
      requires nameHash.Length == CHAIN_NAME_HSIZE
      reads `order, nameHash, order`hnext, order`pprev
    {
      forall k | 0 <= k < CHAIN_NAME_HSIZE :: BucketValid(k)
    }

    ghost predicate BucketValid(k: nat)
      requires k < nameHash.Length
      reads `order, nameHash, order`hnext, order`pprev
    {
      HashChain(nameHash, k, nameHash[k], InBucket(order, k))
    }

    /** The hash part of adding: the other buckets do not notice. */
    method Index(r: Chain)
      requires Valid() && r !in nodes && r != head
      modifies this`order, r`hnext, r`pprev, nameHash, Elements(order)`pprev
      ensures order == [r] + old(order) && nodes == old(nodes)
      ensures Distinct(order) && BucketsValid()
    {
      hide InBucket, HashChain;
      var hash := ComputeDjbHash(NameOf(r));
      var key := hash % CHAIN_NAME_HSIZE;
      ghost var before := order;
      assert BucketValid(key);
      HlistAddHead(r, nameHash, key, InBucket(before, key));
      order := [r] + before;
      forall k | 0 <= k < CHAIN_NAME_HSIZE ensures BucketValid(k) {
        InBucketCons(r, before, k);
        if k != key {
          ghost var chain, first := InBucket(before, k), nameHash[k];
          assert old(BucketValid(k));
          assert [] + chain == chain;
          assert old(HashChain(nameHash, k, first, chain));
          assert forall c <- Elements(chain) :: c !in Elements(InBucket(before, key)) && c != r;
          assert HashChain(nameHash, k, first, chain);
        }
      }
    }

    /** nftnl_chain_list_add: in front of the list. */
    method Add(r: Chain)
      requires Valid() && r !in nodes && r != head
      modifies this, r, nameHash, head`next, head`prev, Elements(nodes)
      ensures Valid() && nodes == [r] + old(nodes) && order == [r] + old(order)
    {
      hide InBucket, HashChain;
      Index(r);
      assert BucketsValid();
      ListAdd(r, head, head, nodes, 0);
      assert Insert(nodes, 0, r) == [r] + nodes;
      nodes := [r] + nodes;
      ghost var kept := BucketsValid();
      assert kept;
    }

    /** nftnl_chain_list_add_tail: at the end of the list, but in front of its bucket. */
    method AddTail(r: Chain)
      requires Valid() && r !in nodes && r != head
      modifies this, r, nameHash, head`next, head`prev, Elements(nodes)
      ensures Valid() && nodes == old(nodes) + [r] && order == [r] + old(order)
    {
      hide InBucket, HashChain;
      Index(r);
      assert BucketsValid();
      ListAddTail(r, head, head, nodes, |nodes|);
      assert Insert(nodes, |nodes|, r) == nodes + [r];
      nodes := nodes + [r];
      ghost var kept := BucketsValid();
      assert kept;
    }

    /** nftnl_chain_list_del, which gets the chain alone. */
    static method Del(r: Chain, ghost list: ChainList, ghost i: nat, ghost j: nat)
      requires list.Valid()
      requires i < |list.nodes| && list.nodes[i] == r && j < |list.order| && list.order[j] == r
      modifies list, list.nameHash, list.head`next, list.head`prev, Elements(list.nodes)
      ensures list.Valid()
      ensures list.nodes == Remove(old(list.nodes), i) && list.order == Remove(old(list.order), j)
    {
      ListDel(r, list.head, list.nodes, i);
      DistinctRemove(list.nodes, i);
      list.nodes := Remove(list.nodes, i);
      Unindex(r, list, j);
    }

    /** The hash part of deleting. */
    static method Unindex(r: Chain, ghost list: ChainList, ghost j: nat)
      requires list.nameHash.Length == CHAIN_NAME_HSIZE
      requires Distinct(list.order) && list.BucketsValid()
      requires j < |list.order| && list.order[j] == r
      modifies list`order, list.nameHash, Elements(list.order)`hnext, Elements(list.order)`pprev
      ensures Distinct(list.order) && list.BucketsValid()
      ensures list.order == Remove(old(list.order), j)
    {
      hide InBucket, HashChain;
      ghost var key, before := KeyOf(NameOf(r)), list.order;
      ghost var at := InBucketOwn(before, j, key);
      assert list.BucketValid(key);
      HlistDel(r, list.nameHash, key, InBucket(before, key), at);
      DistinctRemove(before, j);
      list.order := Remove(before, j);
      forall k | 0 <= k < CHAIN_NAME_HSIZE ensures list.BucketValid(k) {
        if k != key {
          InBucketOther(before, j, k);
          ghost var chain, first := InBucket(before, k), list.nameHash[k];
          assert old(list.BucketValid(k));
          assert old(HashChain(list.nameHash, k, first, chain));
          assert forall c <- Elements(chain) :: c !in Elements(InBucket(before, key));
          assert HashChain(list.nameHash, k, first, chain);
        }
      }
    }

    lemma BucketIsValid(k: nat)
      requires nameHash.Length == CHAIN_NAME_HSIZE && BucketsValid() && k < CHAIN_NAME_HSIZE
      ensures BucketValid(k)
    {
    }

    /** nftnl_chain_list_lookup_byname */
    method LookupByName(name: CString) returns (r: MaybeChain)
      requires Valid()
      ensures r == FirstNamed(order, name)
    {
      hide InBucket, HashChain, DjbHash, Circular, BucketsValid;
      var hash := ComputeDjbHash(name);
      var key := hash % CHAIN_NAME_HSIZE;
      ghost var chain := InBucket(order, key);
      ghost var i := 0;
      BucketIsValid(key);
      FirstNamedInBucket(order, name);
      ChainLinks(nameHash, key, nameHash[key], chain);
      r := nameHash[key];
      assert chain[0..] == chain;
      while r != null
        invariant i <= |chain| && r == if i < |chain| then chain[i] else null
        invariant FirstNamed(chain[i..], name) == FirstNamed(order, name)
        decreases |chain| - i
      {
        if NameOf(r) == name {
          return;
        }
        assert chain[i..][1..] == chain[i + 1..];
        r := r.hnext;
        i := i + 1;
      }
    }
  }

  /** What a lookup means: null exactly when no member has the name, otherwise the
      first such member in the order of insertion, latest first. */
  lemma {:induction false} FirstNamedMeans(order: seq<Chain>, name: CString)
    ensures var c := FirstNamed(order, name);
            if c == null then forall x <- order :: NameOf(x) != name
            else exists i :: 0 <= i < |order| && order[i] == c && NameOf(order[i]) == name
                          && forall j :: 0 <= j < i ==> NameOf(order[j]) != name
  {
    if order != [] && NameOf(order[0]) != name {
      var rest := order[1..];
      FirstNamedMeans(rest, name);
      var c := FirstNamed(rest, name);
      if c != null {
        var i :| 0 <= i < |rest| && rest[i] == c && NameOf(rest[i]) == name
              && forall j :: 0 <= j < i ==> NameOf(rest[j]) != name;
        assert order[i + 1] == c;
        assert forall j :: 0 <= j < i + 1 ==> NameOf(order[j]) != name;
      } else {
        assert forall x <- order :: x == order[0] || x in rest;
      }
    }
  }

  /** Bucket `k` links the chains of `chain`, in this order and each once, from its
      first pointer on. */
  ghost predicate BucketLinks(list: ChainList, k: nat, chain: seq<Chain>)
    requires k < list.nameHash.Length
    reads list.nameHash, Elements(chain)
  {
    Distinct(chain) && HashChain(list.nameHash, k, list.nameHash[k], chain)
  }

  /** The 512 buckets hold exactly the members of the list, each once, in the bucket of
      its name's hash and in no other. */
  ghost predicate ExactIndex(list: ChainList)
    requires list.nameHash.Length == CHAIN_NAME_HSIZE
    reads list, list.nameHash, Elements(list.order)
  {
    && (forall k | 0 <= k < CHAIN_NAME_HSIZE :: BucketLinks(list, k, InBucket(list.order, k)))
    && (forall k | 0 <= k < CHAIN_NAME_HSIZE ::
          forall c <- InBucket(list.order, k) :: c in list.nodes && KeyOf(NameOf(c)) == k)
    && (forall c <- list.nodes :: c in InBucket(list.order, KeyOf(NameOf(c))))
  }

  lemma ValidIsExact(list: ChainList)
    requires list.Valid()
    ensures ExactIndex(list)
  {
    hide DjbHash;
    forall k | 0 <= k < CHAIN_NAME_HSIZE ensures BucketLinks(list, k, InBucket(list.order, k)) {
      assert list.BucketValid(k);
    }
    forall c | c in list.nodes ensures c in InBucket(list.order, KeyOf(NameOf(c))) {
      InBucketComplete(list.order, KeyOf(NameOf(c)), c);
    }
  }

  /** A chain is a member exactly when some bucket holds it, and that bucket is the one
      of its name's hash. */
  lemma BucketsAreMembers(list: ChainList, c: Chain)
    requires list.Valid()
    ensures c in list.nodes <==> exists k: nat :: k < CHAIN_NAME_HSIZE && c in InBucket(list.order, k)
    ensures forall k: nat :: c in InBucket(list.order, k) ==> k == KeyOf(NameOf(c))
  {
    hide HashChain, DjbHash;
    if c in list.nodes {
      InBucketComplete(list.order, KeyOf(NameOf(c)), c);
    }
  }
}
