/** Dumping the elements of a set over several messages (src/set_elem.c).  A call
    writes elements into one list nest until the next would push its 16-bit length
    past 65535; it takes that element back, steps the iterator back, and asks to be
    called again with a new message. */
module ChunkedDump {
  import opened Wrappers
  import opened Bytes
  import opened Netlink
  import opened Messages
  import opened ExprBuild
  import opened SetElems
  import opened LinuxList
  import opened Lists

  const NFTA_SET_ELEM_LIST_TABLE := 1
  const NFTA_SET_ELEM_LIST_SET := 2
  const NFTA_SET_ELEM_LIST_ELEMENTS := 3
  const NFTA_SET_ELEM_LIST_SET_ID := 4

  const UINT16_MAX := 0xFFFF

  /** The length of the nest around an element. */
  function ElemSize(e: SetElem): (n: nat)
    ensures n >= NLA_HDRLEN
  {
    NLA_HDRLEN + |Encode(ElemAttrs(e))|
  }

  function TotalSize(es: seq<SetElem>): nat {
    if es == [] then 0 else TotalSize(es[..|es| - 1]) + ElemSize(es[|es| - 1])
  }

  /** The comparison of nftnl_attr_nest_overflow: `used` bytes of the list nest lie
      before the element, whose own length field keeps 16 bits. */
  predicate Overflows(used: nat, e: SetElem) {
    used + ElemSize(e) % 0x1_0000 > UINT16_MAX
  }

  /** The first element that a call at position `k` does not write, when `used`
      bytes of its list nest are taken. */
  function Stop(es: seq<SetElem>, k: nat, used: nat): (stop: nat)
    requires k <= |es|
    ensures k <= stop <= |es|
    decreases |es| - k
  {
    if k == |es| || Overflows(used, es[k]) then k
    else Stop(es, k + 1, used + ElemSize(es[k]))
  }

  function ChunkEnd(es: seq<SetElem>, k: nat): (stop: nat)
    requires k <= |es|
    ensures k <= stop <= |es|
  {
    Stop(es, k, NLA_HDRLEN)
  }

  /** What remains of an element that was taken back: nothing, unless its length
      did not fit the 16-bit field that says how much to take back. */
  function Remains(e: SetElem, i: nat): bytes {
    var b := AttrBytes(ElemNest(e, i));
    if ElemSize(e) % 0x1_0000 <= |b| then b[..|b| - ElemSize(e) % 0x1_0000] else []
  }

  /** An element that fits 65535 bytes is taken back whole; of a longer one the whole
      multiples of 65536 bytes stay. */
  lemma WhatRemains(e: SetElem, i: nat)
    ensures Remains(e, i) <= AttrBytes(ElemNest(e, i))
    ensures |Remains(e, i)| == |AttrBytes(ElemNest(e, i))| / 65536 * 65536
  {
    hide Encode, AttrBytes;
    ElemNestSize(e, i);
  }

  /** The content of the list nest that a call at position `k` writes. */
  function ChunkBody(es: seq<SetElem>, k: nat): bytes
    requires k <= |es|
  {
    var stop := ChunkEnd(es, k);
    Encode(ElemNests(es[k..stop], 1)) + (if stop < |es| then Remains(es[stop], stop - k + 1) else [])
  }

  lemma ElemNestSize(e: SetElem, i: nat)
    ensures |AttrBytes(ElemNest(e, i))| == ElemSize(e) && ElemSize(e) % 4 == 0
  {
    hide Encode;
    EncodeAligned(ElemAttrs(e));
    NestIsAttr(i, ElemAttrs(e));
  }

  lemma ElemNestsStep(es: seq<SetElem>, k: nat, at: nat)
    requires k <= at < |es|
    ensures Encode(ElemNests(es[k..at + 1], 1))
         == Encode(ElemNests(es[k..at], 1)) + AttrBytes(ElemNest(es[at], at - k + 1))
  {
    hide Encode, AttrBytes;
    var last := ElemNest(es[at], at - k + 1);
    assert ElemNests(es[k..at + 1], 1) == ElemNests(es[k..at], 1) + [last];
    EncodeConcat(ElemNests(es[k..at], 1), [last]);
    EncodeOne(last);
  }

  lemma {:induction false} NestsSize(es: seq<SetElem>)
    ensures |Encode(ElemNests(es, 1))| == TotalSize(es)
  {
    if es != [] {
      var n := |es| - 1;
      NestsSize(es[..n]);
      ElemNestsStep(es, 0, n);
      assert es[0..n + 1] == es && es[0..n] == es[..n];
      ElemNestSize(es[n], n + 1);
    }
  }

  /** The part of a set that the element functions write in front of the list. */
  datatype SetHeader = SetHeader(name: Option<CString>, id: Option<u32>, table: Option<CString>)

  function HeaderFields(s: SetHeader): seq<Field> {
    [ FieldText(NFTA_SET_ELEM_LIST_SET, s.name),
      FieldU32(NFTA_SET_ELEM_LIST_SET_ID, s.id),
      FieldText(NFTA_SET_ELEM_LIST_TABLE, s.table) ]
  }

  function HeaderBytes(s: SetHeader): bytes {
    Encode(Emit(HeaderFields(s)))
  }

  ghost predicate HeaderFits(s: SetHeader) {
    && (s.name.Some? ==> |s.name.value| + 5 <= 0xFFFF)
    && (s.table.Some? ==> |s.table.value| + 5 <= 0xFFFF)
  }

  /** nftnl_set_elem_nlmsg_build_def */
  method BuildHeader(m: Message, s: SetHeader)
    requires HeaderFits(s)
    requires m.Valid() && m.Room(|HeaderBytes(s)|)
    modifies m`len, m.data
    ensures m.Valid() && m.Contents() == old(m.Contents()) + HeaderBytes(s)
  {
    hide Encode, Emit;
    ghost var c0, fs := m.Contents(), HeaderFields(s);
    BuildStart(c0, fs);
    PutText(m, NFTA_SET_ELEM_LIST_SET, s.name, c0, fs, 0);
    PutU32(m, NFTA_SET_ELEM_LIST_SET_ID, s.id, c0, fs, 1);
    PutText(m, NFTA_SET_ELEM_LIST_TABLE, s.table, c0, fs, 2);
    BuildDone(m, c0, fs);
  }

  /** The elements behind the nodes of a list. */
  ghost predicate Holds(list: List<SetElem>, es: seq<SetElem>)
    reads list
  {
    |es| == |list.nodes| && forall i :: 0 <= i < |es| ==> list.nodes[i].entry == Some(es[i])
  }

  /** The bytes a call at position `k` needs, the element it takes back included. */
  ghost function ChunkRoom(es: seq<SetElem>, k: nat): nat
    requires k <= |es|
  {
    var stop := ChunkEnd(es, k);
    NLA_HDRLEN + |Encode(ElemNests(es[k..if stop < |es| then stop + 1 else stop], 1))|
  }

  /** What one call appends. */
  function ChunkBytes(es: seq<SetElem>, k: nat): bytes
    requires k <= |es|
  {
    if es == [] then [] else NestBytes(NFTA_SET_ELEM_LIST_ELEMENTS, ChunkBody(es, k))
  }

  /** nftnl_set_elem_nlmsg_build followed by nftnl_attr_nest_overflow: writes one
      element, and takes it back when the list nest at `nest1` gets too long. */
  method TryElem(m: Message, e: SetElem, i: nat, nest1: nat) returns (overflow: bool)
    requires ElemTextsFit(e)
    requires m.Valid() && nest1 <= m.len && m.Room(ElemSize(e))
    modifies m`len, m.data
    ensures m.Valid() && overflow == Overflows(|old(m.Contents())| - nest1, e)
    ensures m.Contents() == old(m.Contents())
                          + if overflow then Remains(e, i) else AttrBytes(ElemNest(e, i))
  {
    hide Encode, AttrBytes;
    ghost var c, b := m.Contents(), AttrBytes(ElemNest(e, i));
    ElemNestSize(e, i);
    var nest2 := BuildElem(m, e, i);
    LengthField(c, ElemNest(e, i));
    var nlaLen := m.NlaLen(nest2);
    overflow := nest2 + nlaLen - nest1 > UINT16_MAX;
    if overflow {
      m.Retract(nlaLen);
      assert (c + b)[..|c + b| - nlaLen] == c + b[..|b| - nlaLen];
    }
  }

  /** The room for the elements up to `b` covers the room up to an earlier `a`. */
  lemma NestsGrow(es: seq<SetElem>, k: nat, a: nat, b: nat)
    requires k <= a <= b <= |es|
    ensures |Encode(ElemNests(es[k..a], 1))| <= |Encode(ElemNests(es[k..b], 1))|
  {
    hide Encode;
    var few, many := ElemNests(es[k..a], 1), ElemNests(es[k..b], 1);
    assert many == few + many[a - k..];
    EncodeConcat(few, many[a - k..]);
  }

  /** What holds when `at` is the next element to be tried. */
  ghost predicate Filling(m: Message, c: bytes, es: seq<SetElem>, k: nat, at: nat)
    reads m, m.data
  {
    && k <= at <= |es|
    && m.Valid()
    && OpenNest(c, NFTA_SET_ELEM_LIST_ELEMENTS, Encode(ElemNests(es[k..at], 1)), m.Contents())
    && Stop(es, at, |m.Contents()| - |c|) == ChunkEnd(es, k)
    && |c| + ChunkRoom(es, k) <= m.data.Length
  }

  lemma FillingRoom(m: Message, c: bytes, es: seq<SetElem>, k: nat, at: nat)
    requires Filling(m, c, es, k, at) && at < |es|
    ensures m.Room(ElemSize(es[at]))
  {
    hide Encode;
    var stop := ChunkEnd(es, k);
    ElemNestsStep(es, k, at);
    ElemNestSize(es[at], at - k + 1);
    NestsGrow(es, k, at + 1, if stop < |es| then stop + 1 else stop);
  }

  /** One turn of the loop: the element stays, or it ends the chunk. */
  method FillOne(m: Message, e: SetElem, i: nat, nest1: nat,
                 ghost c: bytes, ghost es: seq<SetElem>, ghost k: nat, ghost at: nat)
    returns (overflow: bool)
    requires Filling(m, c, es, k, at) && at < |es| && es[at] == e
    requires i == at - k + 1 && nest1 == |c| && ElemTextsFit(e)
    modifies m`len, m.data
    ensures !overflow ==> Filling(m, c, es, k, at + 1)
    ensures m.Valid() && (overflow ==> at == ChunkEnd(es, k))
    ensures overflow ==> OpenNest(c, NFTA_SET_ELEM_LIST_ELEMENTS, ChunkBody(es, k), m.Contents())
  {
    hide Encode, AttrBytes;
    ghost var before, body := m.Contents(), Encode(ElemNests(es[k..at], 1));
    FillingRoom(m, c, es, k, at);
    overflow := TryElem(m, e, i, nest1);
    if overflow {
      OpenNestAppend(c, NFTA_SET_ELEM_LIST_ELEMENTS, body, before, Remains(e, i));
    } else {
      OpenNestAppend(c, NFTA_SET_ELEM_LIST_ELEMENTS, body, before, AttrBytes(ElemNest(e, i)));
      ElemNestsStep(es, k, at);
      ElemNestSize(e, i);
    }
  }

  /** The loop that fills the list nest. */
  method FillNest(m: Message, iter: Iter<SetElem>, nest1: nat, ghost c: bytes, ghost es: seq<SetElem>, ghost k: nat)
    returns (again: bool)
    requires Filling(m, c, es, k, k) && nest1 == |c| && (forall e <- es :: ElemTextsFit(e))
    requires iter.list.Valid() && Holds(iter.list, es) && iter.At(k)
    modifies m`len, m.data, iter`cur
    ensures m.Valid() && OpenNest(c, NFTA_SET_ELEM_LIST_ELEMENTS, ChunkBody(es, k), m.Contents())
    ensures again == (ChunkEnd(es, k) < |es|)
    ensures iter.At(if again then ChunkEnd(es, k) else 0)
  {
    hide Encode, AttrBytes, OpenNest, Filling, ChunkBody, ElemTextsFit, Ring;
    again := false;
    assert k <= |es|;
    var i := 0;
    var elem := iter.Next(k);
    ghost var at := k;
    while elem != null
      invariant k <= at <= |es| && i == at - k
      invariant Filling(m, c, es, k, at)
      invariant elem == if at < |es| then iter.list.nodes[at] else null
      invariant iter.At(if at < |es| then at + 1 else 0)
      decreases |es| - at
    {
      i := i + 1;
      var overflow := FillOne(m, elem.entry.value, i, nest1, c, es, k, at);
      if overflow {
        iter.StepBack(at + 1);
        again := true;
        return;
      }
      elem := iter.Next(at + 1);
      at := at + 1;
    }
    LastChunk(m, c, es, k);
  }

  lemma LastChunk(m: Message, c: bytes, es: seq<SetElem>, k: nat)
    requires Filling(m, c, es, k, |es|)
    ensures m.Valid() && ChunkEnd(es, k) == |es|
    ensures OpenNest(c, NFTA_SET_ELEM_LIST_ELEMENTS, ChunkBody(es, k), m.Contents())
  {
    hide Encode;
    var body := Encode(ElemNests(es[k..|es|], 1));
    assert body + [] == body;
  }

  /** `list_empty` */
  method ListEmpty(list: List<SetElem>) returns (empty: bool)
    requires list.Valid()
    ensures empty == (list.nodes == [])
  {
    RingAt(list.head, list.nodes, 0);
    assert list.nodes != [] ==> Ring(list.head, list.nodes)[1] == list.nodes[0];
    empty := list.head.next == list.head;
  }

  /** The bytes a call at position `k` needs in the message. */
  ghost function CallRoom(es: seq<SetElem>, k: nat): nat
    requires k <= |es|
  {
    if es == [] then 0 else ChunkRoom(es, k)
  }

  lemma StartFilling(m: Message, c: bytes, es: seq<SetElem>, k: nat)
    requires k <= |es| && m.Valid() && |c| + ChunkRoom(es, k) <= m.data.Length
    requires OpenNest(c, NFTA_SET_ELEM_LIST_ELEMENTS, [], m.Contents())
    ensures Filling(m, c, es, k, k)
  {
    assert ElemNests(es[k..k], 1) == [];
  }

  /** nftnl_set_elems_nlmsg_build_payload_iter.  The iterator stands at position `k`
      of the list, whose elements are `es`. */
  method BuildPayloadIter(m: Message, s: SetHeader, iter: Iter<SetElem>, ghost es: seq<SetElem>, ghost k: nat)
    returns (again: bool)
    requires HeaderFits(s) && (forall e <- es :: ElemTextsFit(e))
    requires iter.list.Valid() && Holds(iter.list, es) && iter.At(k)
    requires m.Valid() && m.Room(|HeaderBytes(s)| + CallRoom(es, k))
    modifies m`len, m.data, iter`cur
    ensures m.Valid() && m.Contents() == old(m.Contents()) + HeaderBytes(s) + ChunkBytes(es, k)
    ensures again == (ChunkEnd(es, k) < |es|)
    ensures iter.At(if again then ChunkEnd(es, k) else 0)
  {
    hide Encode, AttrBytes, OpenNest, ChunkBody;
    BuildHeader(m, s);
    ghost var c := m.Contents();
    var empty := ListEmpty(iter.list);
    if empty {
      return false;
    }
    var nest1 := m.NestStart(NFTA_SET_ELEM_LIST_ELEMENTS);
    StartFilling(m, c, es, k);
    again := FillNest(m, iter, nest1, c, es, k);
    OpenNestSize(c, NFTA_SET_ELEM_LIST_ELEMENTS, ChunkBody(es, k), m.Contents());
    CloseNestBytes(c, NFTA_SET_ELEM_LIST_ELEMENTS, ChunkBody(es, k), m.Contents());
    m.NestEnd(nest1);
  }

  // ---------- all elements in one message ----------

  /** Where a loop over all elements stands: `i` of them are written. */
  ghost predicate Writing(m: Message, c: bytes, es: seq<SetElem>, i: nat)
    reads m, m.data
  {
    && i <= |es| && m.Valid()
    && OpenNest(c, NFTA_SET_ELEM_LIST_ELEMENTS, Encode(ElemNests(es[0..i], 1)), m.Contents())
    && |c| + NLA_HDRLEN + |Encode(ElemNests(es[0..|es|], 1))| <= m.data.Length
  }

  method WriteOne(m: Message, e: SetElem, ghost c: bytes, ghost es: seq<SetElem>, i: nat)
    requires Writing(m, c, es, i) && i < |es| && es[i] == e && ElemTextsFit(e)
    modifies m`len, m.data
    ensures Writing(m, c, es, i + 1)
  {
    hide Encode, AttrBytes;
    ghost var before := m.Contents();
    ElemNestsStep(es, 0, i);
    NestsGrow(es, 0, i + 1, |es|);
    OpenNestAppend(c, NFTA_SET_ELEM_LIST_ELEMENTS, Encode(ElemNests(es[0..i], 1)), before,
                   AttrBytes(ElemNest(e, i + 1)));
    var _ := BuildElem(m, e, i + 1);
  }

  /** nftnl_set_elems_nlmsg_build_payload: no check for overflow, so the length of the
      list nest is cut to 16 bits. */
  method BuildPayload(m: Message, s: SetHeader, list: List<SetElem>, ghost es: seq<SetElem>)
    requires HeaderFits(s) && (forall e <- es :: ElemTextsFit(e))
    requires list.Valid() && Holds(list, es)
    requires m.Valid() && m.Room(|HeaderBytes(s)| + NLA_HDRLEN + |Encode(ElemNests(es, 1))|)
    modifies m`len, m.data
    ensures m.Valid()
    ensures m.Contents() == old(m.Contents()) + HeaderBytes(s)
      + if es == [] then [] else NestBytes(NFTA_SET_ELEM_LIST_ELEMENTS, Encode(ElemNests(es, 1)))
  {
    hide Encode, AttrBytes, OpenNest, ElemTextsFit;
    BuildHeader(m, s);
    ghost var c := m.Contents();
    var empty := ListEmpty(list);
    if empty {
      return;
    }
    var nest1 := m.NestStart(NFTA_SET_ELEM_LIST_ELEMENTS);
    StartWriting(m, c, es);
    WriteElems(m, list, c, es);
    ghost var body := Encode(ElemNests(es, 1));
    assert es[0..|es|] == es;
    OpenNestSize(c, NFTA_SET_ELEM_LIST_ELEMENTS, body, m.Contents());
    CloseNestBytes(c, NFTA_SET_ELEM_LIST_ELEMENTS, body, m.Contents());
    m.NestEnd(nest1);
  }

  lemma StartWriting(m: Message, c: bytes, es: seq<SetElem>)
    requires m.Valid() && |c| + NLA_HDRLEN + |Encode(ElemNests(es, 1))| <= m.data.Length
    requires OpenNest(c, NFTA_SET_ELEM_LIST_ELEMENTS, [], m.Contents())
    ensures Writing(m, c, es, 0)
  {
    assert ElemNests(es[0..0], 1) == [] && es[0..|es|] == es;
  }

  method WriteElems(m: Message, list: List<SetElem>, ghost c: bytes, ghost es: seq<SetElem>)
    requires Writing(m, c, es, 0) && list.Valid() && Holds(list, es) && (forall e <- es :: ElemTextsFit(e))
    modifies m`len, m.data
    ensures Writing(m, c, es, |es|)
  {
    hide Writing, ElemTextsFit, Ring;
    var i := 0;
    var pos := First(list);
    while pos != list.head
      invariant i <= |es| && Writing(m, c, es, i)
      invariant pos == if i < |es| then list.nodes[i] else list.head
      decreases |es| - i
    {
      WriteOne(m, pos.entry.value, c, es, i);
      pos := Following(list, pos, i);
      i := i + 1;
    }
  }

  /** The two ends of list_for_each_entry: the first element, and the one behind. */
  method First(list: List<SetElem>) returns (r: Node<SetElem>)
    requires list.Valid()
    ensures r == if list.nodes == [] then list.head else list.nodes[0]
  {
    RingAt(list.head, list.nodes, 0);
    assert list.nodes != [] ==> Ring(list.head, list.nodes)[1] == list.nodes[0];
    r := list.head.next;
  }

  method Following(list: List<SetElem>, pos: Node<SetElem>, ghost i: nat) returns (r: Node<SetElem>)
    requires list.Valid() && i < |list.nodes| && pos == list.nodes[i]
    ensures r == if i + 1 < |list.nodes| then list.nodes[i + 1] else list.head
  {
    ghost var ring := Ring(list.head, list.nodes);
    RingAt(list.head, list.nodes, i + 1);
    assert ring[i + 1] == pos;
    assert i + 1 < |list.nodes| ==> ring[i + 2] == list.nodes[i + 1];
    r := pos.next;
  }
}
