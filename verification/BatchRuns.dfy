/** Whole runs of a batch: any messages, each written and followed by
    nftnl_batch_update (src/batch.c). */
module BatchRuns {
  import opened Bytes
  import opened Batches
  import opened Lists

  /** The messages of each page after a run. */
  function Run(msgs: seq<bytes>, size: nat): (groups: seq<seq<bytes>>)
    ensures groups != []
  {
    if msgs == [] then [[]]
    else AddMessage(Run(msgs[..|msgs| - 1], size), msgs[|msgs| - 1], size)
  }

  function Flatten(groups: seq<seq<bytes>>): seq<bytes> {
    if groups == [] then [] else Flatten(groups[..|groups| - 1]) + groups[|groups| - 1]
  }

  /** The messages that are no longer than a page. */
  function Kept(msgs: seq<bytes>, size: nat): (kept: seq<bytes>)
    ensures |kept| <= |msgs|
  {
    if msgs == [] then []
    else
      var msg := msgs[|msgs| - 1];
      Kept(msgs[..|msgs| - 1], size) + if |msg| <= size then [msg] else []
  }

  predicate AllFit(msgs: seq<bytes>, size: nat) {
    forall i :: 0 <= i < |msgs| ==> |msgs[i]| <= size
  }

  // ---------- conservation ----------

  lemma {:induction false} AddFlatten(groups: seq<seq<bytes>>, msg: bytes, size: nat)
    requires groups != []
    ensures Flatten(AddMessage(groups, msg, size)) == Flatten(groups) + if |msg| <= size then [msg] else []
  {
    hide Concat;
    var n := |groups| - 1;
    var after := AddMessage(groups, msg, size);
    assert after[..|after| - 1] == if |after| == |groups| then groups[..n] else groups;
    assert Flatten(groups) == Flatten(groups[..n]) + groups[n];
  }

  /** The pages in order hold the messages in order, each whole and once; a message
      longer than a page is on none of them. */
  lemma {:induction false} RunKeeps(msgs: seq<bytes>, size: nat)
    ensures Flatten(Run(msgs, size)) == Kept(msgs, size)
  {
    if msgs == [] {
      assert Run(msgs, size)[..0] == [];
    } else {
      var n := |msgs| - 1;
      RunKeeps(msgs[..n], size);
      AddFlatten(Run(msgs[..n], size), msgs[n], size);
    }
  }

  lemma {:induction false} KeptAll(msgs: seq<bytes>, size: nat)
    ensures AllFit(msgs, size) ==> Kept(msgs, size) == msgs
    ensures !AllFit(msgs, size) ==> |Kept(msgs, size)| < |msgs|
  {
    if msgs != [] {
      var n := |msgs| - 1;
      KeptAll(msgs[..n], size);
      assert AllFit(msgs, size) <==> AllFit(msgs[..n], size) && |msgs[n]| <= size;
      assert msgs == msgs[..n] + [msgs[n]];
    }
  }

  /** No message is lost exactly when none is longer than a page. */
  lemma NothingLost(msgs: seq<bytes>, size: nat)
    ensures Flatten(Run(msgs, size)) == msgs <==> AllFit(msgs, size)
  {
    RunKeeps(msgs, size);
    KeptAll(msgs, size);
  }

  // ---------- the pages ----------

  lemma {:induction false} PagesFit(msgs: seq<bytes>, size: nat)
    ensures forall group <- Run(msgs, size) :: |Concat(group)| <= size
  {
    if msgs != [] {
      var n := |msgs| - 1;
      PagesFit(msgs[..n], size);
      var groups, msg := Run(msgs[..n], size), msgs[n];
      ConcatAppend(groups[|groups| - 1], msg);
      ConcatShort(msg);
    }
  }

  /** Every page but the last holds a message, and two neighbouring pages hold more
      bytes than fit one page. */
  predicate Packed(groups: seq<seq<bytes>>, size: nat) {
    && (forall i :: 0 <= i < |groups| - 1 ==> groups[i] != [])
    && (forall i :: 0 < i < |groups| ==> |Concat(groups[i - 1])| + |Concat(groups[i])| > size)
  }

  lemma AddPacked(groups: seq<seq<bytes>>, msg: bytes, size: nat)
    requires groups != [] && Packed(groups, size) && |msg| <= size
    ensures Packed(AddMessage(groups, msg, size), size)
  {
    hide Concat;
    ConcatAppend(groups[|groups| - 1], msg);
    ConcatShort(msg);
  }

  lemma {:induction false} RunPacked(msgs: seq<bytes>, size: nat)
    requires AllFit(msgs, size)
    ensures Packed(Run(msgs, size), size)
  {
    if msgs != [] {
      var n := |msgs| - 1;
      RunPacked(msgs[..n], size);
      AddPacked(Run(msgs[..n], size), msgs[n], size);
    }
  }

  // ---------- how many pages ----------

  lemma {:induction false} ConcatFlatten(groups: seq<seq<bytes>>, size: nat)
    requires groups != [] && Packed(groups, size)
    ensures (|groups| - 1) * (size + 1) + |Concat(groups[|groups| - 1])| <= 2 * |Concat(Flatten(groups))|
  {
    var n := |groups| - 1;
    var before := groups[..n];
    ConcatSum(Flatten(before), groups[n]);
    if n > 0 {
      ConcatFlatten(before, size);
      assert |Concat(groups[n - 1])| + |Concat(groups[n])| > size;
      Distribute(n, size + 1);
    }
  }

  lemma Distribute(n: nat, x: nat)
    requires n > 0
    ensures n * x == (n - 1) * x + x
  {
  }

  lemma {:induction false} ConcatSum(a: seq<bytes>, b: seq<bytes>)
    ensures |Concat(a + b)| == |Concat(a)| + |Concat(b)|
  {
    if b == [] {
      assert a + b == a;
    } else {
      var n := |b| - 1;
      ConcatSum(a, b[..n]);
      assert (a + b)[..|a + b| - 1] == a + b[..n];
    }
  }

  /** The number of pages for messages of T bytes altogether is at most
      2 * T / page_size + 1. */
  lemma PageCount(msgs: seq<bytes>, size: nat)
    requires AllFit(msgs, size) && size > 0
    ensures |Run(msgs, size)| <= 2 * |Concat(msgs)| / size + 1
  {
    var groups := Run(msgs, size);
    RunPacked(msgs, size);
    NothingLost(msgs, size);
    ConcatFlatten(groups, size);
    var n, total := |groups| - 1, 2 * |Concat(msgs)|;
    assert n * (size + 1) == n * size + n;
    DivideAtLeast(total, size, n);
  }

  lemma DivideAtLeast(total: nat, size: nat, n: nat)
    requires size > 0 && n * size <= total
    ensures n <= total / size
  {
    var q := total / size;
    assert total < q * size + size;
    if n > q {
      MultipleAtLeast(n, q, size);
    }
  }

  // ---------- what is sent ----------

  function CountFilled(groups: seq<seq<bytes>>): nat {
    if groups == [] then 0
    else CountFilled(groups[..|groups| - 1]) + if groups[|groups| - 1] == [] then 0 else 1
  }

  /** nftnl_batch_iovec_len, which looks at the last page only, counts exactly the
      pages that hold messages. */
  lemma SendsFilledPages(msgs: seq<bytes>, size: nat)
    requires AllFit(msgs, size) && forall msg <- msgs :: msg != []
    ensures var groups := Run(msgs, size);
      CountFilled(groups) == |groups| - if Concat(groups[|groups| - 1]) == [] then 1 else 0
  {
    var groups := Run(msgs, size);
    var n := |groups| - 1;
    RunPacked(msgs, size);
    AllFilled(groups[..n]);
    NothingLost(msgs, size);
    assert forall msg <- groups[n] :: msg in Flatten(groups);
    if groups[n] != [] {
      var last := groups[n][|groups[n]| - 1];
      assert last in groups[n];
    }
  }

  lemma {:induction false} AllFilled(groups: seq<seq<bytes>>)
    requires forall i :: 0 <= i < |groups| ==> groups[i] != []
    ensures CountFilled(groups) == |groups|
  {
    if groups != [] {
      AllFilled(groups[..|groups| - 1]);
    }
  }

  // ---------- the runs in memory ----------

  /** Writing any messages that fit the overrun area into a new batch, with an update
      after each, leaves the pages that the lemmas above speak about. */
  method SendAll(pageSize: u32, overrunSize: u32, msgs: seq<bytes>) returns (batch: Batch)
    requires pageSize + overrunSize < 0x1_0000_0000
    requires forall i :: 0 <= i < |msgs| ==> IsMessage(msgs[i]) && |msgs[i]| <= overrunSize
    ensures batch.Valid() && batch.groups == Run(msgs, pageSize)
  {
    hide IsMessage, Stored, Batch.Linked, Page.Pending;
    batch := new Batch(pageSize, overrunSize);
    for i := 0 to |msgs|
      invariant batch.Valid() && batch.groups == Run(msgs[..i], pageSize)
      invariant batch.pageSize == pageSize && batch.overrunSize == overrunSize
      invariant fresh(batch) && fresh(batch.list) && fresh(batch.list.head)
      invariant forall n <- batch.list.nodes :: fresh(n)
      invariant forall p <- batch.pages :: fresh(p) && fresh(p.buf)
    {
      CurrentFits(batch, msgs[..i]);
      ghost var current := batch.Current();
      batch.WriteMessage(msgs[i]);
      assert batch.Current() == current && current in batch.pages;
      assert forall j :: 0 <= j < |batch.list.nodes| ==> batch.list.nodes[j] in batch.list.nodes;
      batch.Update(msgs[i]);
      assert msgs[..i + 1][..i] == msgs[..i];
    }
    assert msgs[..|msgs|] == msgs;
  }

  lemma CurrentFits(batch: Batch, msgs: seq<bytes>)
    requires batch.Valid() && batch.groups == Run(msgs, batch.pageSize)
    requires batch.pageSize + batch.overrunSize < 0x1_0000_0000
    ensures batch.pages != [] && batch.Current() in batch.pages
    ensures batch.Current().cur + batch.overrunSize <= batch.Current().buf.Length
  {
    hide Concat, Run, Batch.Linked;
    PagesFit(msgs, batch.pageSize);
    var n := |batch.groups| - 1;
    assert batch.groups[n] in Run(msgs, batch.pageSize);
    assert batch.pages[n].Holds(Concat(batch.groups[n]));
  }

  /** The bytes of each page. */
  function PageBytes(groups: seq<seq<bytes>>): seq<bytes> {
    seq(|groups|, i requires 0 <= i < |groups| => Concat(groups[i]))
  }

  lemma {:induction false} PageBytesConcat(groups: seq<seq<bytes>>)
    ensures Concat(PageBytes(groups)) == Concat(Flatten(groups))
  {
    if groups != [] {
      var n := |groups| - 1;
      PageBytesConcat(groups[..n]);
      assert PageBytes(groups)[..n] == PageBytes(groups[..n]);
      ConcatTwo(Flatten(groups[..n]), groups[n]);
    }
  }

  lemma {:induction false} ConcatTwo(a: seq<bytes>, b: seq<bytes>)
    ensures Concat(a + b) == Concat(a) + Concat(b)
  {
    if b == [] {
      assert a + b == a;
    } else {
      var n := |b| - 1;
      ConcatTwo(a, b[..n]);
      assert (a + b)[..|a + b| - 1] == a + b[..n];
      ConcatAssociative(Concat(a), Concat(b[..n]), b[n]);
    }
  }

  /** Leaving out an empty last page makes no difference. */
  lemma SentBytes(groups: seq<seq<bytes>>, n: nat, sent: seq<bytes>)
    requires groups != []
    requires n == |groups| - if Concat(groups[|groups| - 1]) == [] then 1 else 0
    requires sent == PageBytes(groups)[..n]
    ensures Concat(sent) == Concat(Flatten(groups))
  {
    hide Flatten;
    PageBytesConcat(groups);
    var all, last := PageBytes(groups), |groups| - 1;
    if n == last {
      assert Concat(all) == Concat(all[..last]) + all[last];
    } else {
      assert all[..n] == all;
    }
  }

  /** What a caller hands to the socket: the buffers of nftnl_batch_iovec, as many as
      nftnl_batch_iovec_len says. */
  method ReadIovec(batch: Batch) returns (sent: seq<bytes>)
    requires batch.Valid() && |batch.groups| == |batch.pages| > 0
    ensures |sent| == |batch.groups| - if Concat(batch.groups[|batch.groups| - 1]) == [] then 1 else 0
    ensures sent == PageBytes(batch.groups)[..|sent|]
  {
    hide Concat;
    var n := batch.IovecLen();
    var iov := batch.Iovec(n);
    hide Batch.Valid;
    sent := [];
    for i := 0 to |iov|
      invariant sent == PageBytes(batch.groups)[..i]
    {
      var (base, len) := iov[i];
      sent := sent + [base[..len]];
    }
  }

  lemma PagesOfBatch(batch: Batch)
    requires batch.Valid()
    ensures |batch.groups| == |batch.pages| > 0
  {
  }

  /** A whole transaction: the buffers that are handed to the socket, one after the
      other, are the messages in order, without those longer than a page. */
  method Transmit(pageSize: u32, overrunSize: u32, msgs: seq<bytes>) returns (sent: seq<bytes>)
    requires pageSize + overrunSize < 0x1_0000_0000
    requires forall i :: 0 <= i < |msgs| ==> IsMessage(msgs[i]) && |msgs[i]| <= overrunSize
    ensures Concat(sent) == Concat(Kept(msgs, pageSize))
    ensures forall i :: 0 <= i < |sent| ==> |sent[i]| <= pageSize
  {
    hide IsMessage, Concat, Flatten, Kept, Run, Batch.Valid;
    var batch := SendAll(pageSize, overrunSize, msgs);
    ghost var groups := batch.groups;
    PagesOfBatch(batch);
    sent := ReadIovec(batch);
    RunKeeps(msgs, pageSize);
    SentBytes(groups, |sent|, sent);
    PagesFit(msgs, pageSize);
    assert forall i :: 0 <= i < |groups| ==> groups[i] in groups;
  }
}
