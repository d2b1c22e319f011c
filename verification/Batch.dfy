/** Batches (src/batch.c): messages are written one after the other into a page; the
    one that no longer fits moves to a new page.  `Page` is libmnl's message batch,
    a buffer whose end may be overrun by one message. */
module Batches {
  import opened Wrappers
  import opened Bytes
  import opened LinuxList
  import opened Lists

  const NLMSG_HDRLEN := 16

  /** A netlink message: its first four bytes say how long it is. */
  predicate IsMessage(msg: bytes) {
    |msg| >= NLMSG_HDRLEN && GetLE32(msg) == |msg|
  }

  function Concat(parts: seq<bytes>): bytes {
    if parts == [] then [] else Concat(parts[..|parts| - 1]) + parts[|parts| - 1]
  }

  lemma ConcatAppend(parts: seq<bytes>, part: bytes)
    ensures Concat(parts + [part]) == Concat(parts) + part
  {
    assert (parts + [part])[..|parts|] == parts;
  }

  lemma ConcatShort(part: bytes)
    ensures Concat([]) == [] && Concat([part]) == part
  {
    ConcatAppend([], part);
  }

  /** struct mnl_nlmsg_batch */
  class Page {
    const buf: array<byte>
    const limit: nat
    var buflen: nat
    var cur: nat

    /** mnl_nlmsg_batch_start */
    constructor (buf: array<byte>, limit: nat)
      ensures this.buf == buf && this.limit == limit && Holds([])
    {
      this.buf, this.limit := buf, limit;
      buflen, cur := 0, 0;
    }

    ghost predicate Holds(content: bytes)
      reads this, buf
    {
      buflen == cur == |content| <= buf.Length && buf[..buflen] == content
    }

    /** `msg` lies at the current position, not yet accounted for. */
    ghost predicate Pending(msg: bytes)
      reads this, buf
    {
      cur + |msg| <= buf.Length && buf[cur..cur + |msg|] == msg
    }

    /** mnl_nlmsg_batch_next */
    method Next(ghost content: bytes, ghost msg: bytes) returns (ok: bool)
      requires Holds(content) && Pending(msg) && IsMessage(msg)
      modifies this
      ensures ok == (|content| + |msg| <= limit)
      ensures if ok then Holds(content + msg) else Holds(content) && Pending(msg)
    {
      assert buf[cur..][..|msg|] == msg;
      var nlmsgLen := GetLE32(buf[cur..]);
      if buflen + nlmsgLen > limit {
        return false;
      }
      assert buf[..buflen + |msg|] == content + msg;
      cur := buflen + nlmsgLen;
      buflen := buflen + nlmsgLen;
      ok := true;
    }

    /** Copies a message to the current position. */
    method Write(msg: bytes, ghost content: bytes)
      requires Holds(content) && cur + |msg| <= buf.Length
      modifies buf
      ensures Holds(content) && Pending(msg)
    {
      for i := 0 to |msg|
        invariant Holds(content)
        invariant buf[cur..cur + i] == msg[..i]
      {
        buf[cur + i] := msg[i];
      }
    }
  }

  /** The messages of each page after one more message: on the last page if it fits
      there, else on a new page, which stays empty when the message is longer than a
      page. */
  function AddMessage(groups: seq<seq<bytes>>, msg: bytes, size: nat): (r: seq<seq<bytes>>)
    requires groups != []
    ensures r != []
  {
    var n := |groups| - 1;
    if |Concat(groups[n])| + |msg| <= size then groups[..n] + [groups[n] + [msg]]
    else groups + [if |msg| <= size then [msg] else []]
  }

  ghost predicate Stored(pages: seq<Page>, groups: seq<seq<bytes>>, size: nat)
    reads pages, set p <- pages :: p.buf
  {
    && |pages| == |groups| > 0
    && (forall i, j :: 0 <= i < j < |pages| ==> pages[i] != pages[j] && pages[i].buf != pages[j].buf)
    && forall i :: 0 <= i < |pages| ==> pages[i].Holds(Concat(groups[i])) && pages[i].limit == size
  }

  lemma StoredAppend(pages: seq<Page>, groups: seq<seq<bytes>>, size: nat, page: Page, group: seq<bytes>)
    requires Stored(pages, groups, size)
    requires page.Holds(Concat(group)) && page.limit == size
    requires forall p <- pages :: p != page && p.buf != page.buf
    ensures Stored(pages + [page], groups + [group], size)
  {
    hide Concat;
    var all := pages + [page];
    forall i, j | 0 <= i < j < |all| ensures all[i] != all[j] && all[i].buf != all[j].buf {
      assert all[i] in pages;
    }
  }

  class Batch {
    const pageSize: u32
    const overrunSize: u32
    const list: List<Page>
    var currentPage: Node?<Page>
    var numPages: nat
    ghost var pages: seq<Page>
    ghost var groups: seq<seq<bytes>>

    /** The list links the pages in order, ends in the current one, and numPages is
        its length. */
    ghost predicate Linked()
      reads `currentPage, `numPages, `pages
      reads list, list.head`next, list.head`prev, list.nodes`next, list.nodes`prev
    {
      && list.Valid()
      && numPages == |list.nodes| == |pages|
      && currentPage == (if numPages == 0 then null else list.nodes[numPages - 1])
      && forall i :: 0 <= i < |pages| ==> list.nodes[i].entry == Some(pages[i])
    }

    ghost predicate Valid()
      reads `currentPage, `numPages, `pages, `groups
      reads list, list.head`next, list.head`prev, list.nodes`next, list.nodes`prev
      reads pages, set p <- pages :: p.buf
    {
      && Linked() && Stored(pages, groups, pageSize)
      && forall p <- pages :: p.buf.Length == BufferSize()
    }

    /** The size of a page's buffer, a 32-bit sum. */
    function BufferSize(): nat {
      (pageSize + overrunSize) % 0x1_0000_0000
    }

    ghost function Current(): Page
      reads `pages
      requires pages != []
    {
      pages[|pages| - 1]
    }

    /** nftnl_batch_alloc */
    constructor (pageSize: u32, overrunSize: u32)
      ensures Valid() && groups == [[]]
      ensures fresh(list) && fresh(list.head) && (forall n <- list.nodes :: fresh(n))
      ensures forall p <- pages :: fresh(p) && fresh(p.buf)
      ensures this.pageSize == pageSize && this.overrunSize == overrunSize
    {
      this.pageSize, this.overrunSize := pageSize, overrunSize;
      currentPage, numPages := null, 0;
      list := new List<Page>();
      pages, groups := [], [[]];
      new;
      var page := PageAlloc();
      AddPage(page);
    }

    /** nftnl_batch_page_alloc */
    method PageAlloc() returns (page: Page)
      ensures fresh(page) && fresh(page.buf)
      ensures page.buf.Length == BufferSize() == (pageSize + overrunSize) % 0x1_0000_0000
      ensures page.limit == pageSize && page.Holds([])
    {
      var buf := new byte[BufferSize()];
      page := new Page(buf, pageSize);
    }

    /** nftnl_batch_add_page */
    method AddPage(page: Page)
      requires Linked() && page !in pages
      modifies this`currentPage, this`numPages, this`pages
      modifies list, list.head`next, list.head`prev, list.nodes`next, list.nodes`prev
      ensures Linked() && pages == old(pages) + [page]
      ensures forall n <- list.nodes :: n in old(list.nodes) || fresh(n)
    {
      var node := new Node<Page>(Some(page));
      currentPage := node;
      numPages := numPages + 1;
      list.AddTail(node);
      pages := pages + [page];
    }

    /** The caller builds a message at nftnl_batch_buffer. */
    method WriteMessage(msg: bytes)
      requires Valid() && Current().cur + |msg| <= Current().buf.Length
      modifies Current().buf
      ensures Valid() && Current().Pending(msg)
    {
      hide Linked, Concat, Page.Holds, Page.Pending;
      ghost var content := Concat(groups[|groups| - 1]);
      var last := CurrentPage();
      last.Write(msg, content);
    }

    /** nftnl_batch_update, after the caller wrote `msg` at the current position. */
    method Update(ghost msg: bytes)
      requires Valid() && IsMessage(msg) && Current().Pending(msg)
      modifies this`currentPage, this`numPages, this`pages, this`groups
      modifies list, list.head`next, list.head`prev, list.nodes`next, list.nodes`prev
      modifies Current()
      ensures Valid() && groups == AddMessage(old(groups), msg, pageSize)
      ensures forall n <- list.nodes :: n in old(list.nodes) || fresh(n)
      ensures forall p <- pages :: p in old(pages) || (fresh(p) && fresh(p.buf))
    {
      hide Concat, Linked, IsMessage, Page.Holds, Page.Pending;
      ghost var n, content := |pages| - 1, Concat(groups[|groups| - 1]);
      var last := CurrentPage();
      var ok := last.Next(content, msg);
      if ok {
        ConcatAppend(groups[n], msg);
        groups := groups[..n] + [groups[n] + [msg]];
      } else {
        MoveToNewPage(last, msg);
      }
    }

    method CurrentPage() returns (page: Page)
      requires Linked() && pages != []
      ensures page == Current()
    {
      page := currentPage.entry.value;
    }

    /** The message that did not fit goes to a new page. */
    method MoveToNewPage(last: Page, ghost msg: bytes)
      requires Valid() && last in pages && last.Pending(msg) && IsMessage(msg)
      modifies this`currentPage, this`numPages, this`pages, this`groups
      modifies list, list.head`next, list.head`prev, list.nodes`next, list.nodes`prev
      ensures Valid() && groups == old(groups) + [if |msg| <= pageSize then [msg] else []]
      ensures forall n <- list.nodes :: n in old(list.nodes) || fresh(n)
      ensures forall p <- pages :: p in old(pages) || (fresh(p) && fresh(p.buf))
    {
      hide Linked, Concat, Stored, IsMessage, Page.Holds, Page.Pending;
      ghost var before := pages;
      var page := PageAlloc();
      AddPage(page);
      assert Stored(before, groups, pageSize) && last.Pending(msg) && page.Holds([]);
      CopyLast(last, page, msg);
      assert Stored(before, groups, pageSize);
      ghost var group := if |msg| <= pageSize then [msg] else [];
      ConcatShort(msg);
      var ok := page.Next([], msg);
      StoredAppend(before, groups, pageSize, page, group);
      groups := groups + [group];
    }

    /** nftnl_batch_iovec_len */
    method IovecLen() returns (n: nat)
      requires Valid()
      ensures n == |pages| - if Concat(groups[|groups| - 1]) == [] then 1 else 0
    {
      n := numPages;
      if currentPage.entry.value.buflen == 0 {
        n := n - 1;
      }
    }

    /** One turn of the loop below: what a page holds, and the node behind it. */
    method PageAt(pos: Node<Page>, ghost i: nat) returns (base: array<byte>, len: nat, next: Node<Page>)
      requires Valid() && i < |list.nodes| == |groups| && pos == list.nodes[i]
      ensures len <= base.Length && base[..len] == Concat(groups[i])
      ensures next == if i + 1 < |list.nodes| then list.nodes[i + 1] else list.head
    {
      hide Concat;
      RingAt(list.head, list.nodes, i + 1);
      assert Ring(list.head, list.nodes)[i + 1] == pos;
      assert i + 1 < |list.nodes| ==> Ring(list.head, list.nodes)[i + 2] == list.nodes[i + 1];
      var page := pos.entry.value;
      assert pages[i].Holds(Concat(groups[i]));
      base, len, next := page.buf, page.buflen, pos.next;
    }

    method FirstPage() returns (pos: Node<Page>)
      requires Valid()
      ensures |list.nodes| == |groups| == |pages|
      ensures pos == if list.nodes == [] then list.head else list.nodes[0]
    {
      RingAt(list.head, list.nodes, 0);
      assert list.nodes != [] ==> Ring(list.head, list.nodes)[1] == list.nodes[0];
      pos := list.head.next;
    }

    /** nftnl_batch_iovec: the buffer and the length of the first `iovlen` pages. */
    method Iovec(iovlen: nat) returns (iov: seq<(array<byte>, nat)>)
      requires Valid()
      ensures |iov| == if iovlen < |pages| then iovlen else |pages|
      ensures forall i :: 0 <= i < |iov| ==>
        var (base, len) := iov[i];
        len <= base.Length && base[..len] == Concat(groups[i])
    {
      iov := [];
      var pos := FirstPage();
      HeadIsNoPage();
      hide Concat, Valid;
      while pos != list.head
        invariant |iov| <= |pages| && |iov| <= iovlen
        invariant pos == if |iov| < |pages| then list.nodes[|iov|] else list.head
        invariant forall i :: 0 <= i < |iov| ==>
          iov[i].1 <= iov[i].0.Length && iov[i].0[..iov[i].1] == Concat(groups[i])
        decreases |pages| - |iov|
      {
        if |iov| >= iovlen {
          break;
        }
        var base, len, next := PageAt(pos, |iov|);
        iov := iov + [(base, len)];
        pos := next;
      }
    }

    lemma HeadIsNoPage()
      requires Valid()
      ensures list.head !in list.nodes
    {
    }
  }

  /** memcpy(nftnl_batch_buffer(batch), last_nlh, last_nlh->nlmsg_len) */
  method CopyLast(last: Page, page: Page, ghost msg: bytes)
    requires IsMessage(msg) && last.Pending(msg) && page.Holds([])
    requires last != page && last.buf != page.buf && last.buf.Length <= page.buf.Length
    modifies page.buf
    ensures page.Holds([]) && page.Pending(msg)
  {
    assert last.buf[last.cur..][..|msg|] == msg;
    var nlmsgLen := GetLE32(last.buf[last.cur..]);
    for i := 0 to nlmsgLen
      invariant page.buf[..i] == msg[..i]
    {
      assert last.buf[last.cur + i] == msg[i];
      page.buf[i] := last.buf[last.cur + i];
    }
  }
}
