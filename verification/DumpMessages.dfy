/** The messages of a whole dump: what the repeated calls of
    nftnl_set_elems_nlmsg_build_payload_iter leave in memory, and what a reader of
    those messages finds (src/set_elem.c). */
module DumpMessages {
  import opened Wrappers
  import opened Bytes
  import opened Netlink
  import opened Messages
  import opened LinuxList
  import opened Lists
  import opened ExprBuild
  import opened SetElems
  import opened SetElemRoundTrip
  import opened ChunkedDump
  import opened ChunkRuns

  /** The messages of a dump that goes on at position `k`. */
  function Dumped(s: SetHeader, es: seq<SetElem>, k: nat): (msgs: seq<bytes>)
    requires k <= |es| && Dump(es, k).Some?
    ensures |msgs| == |Dump(es, k).value|
    decreases |es| - k
  {
    var stop := ChunkEnd(es, k);
    [HeaderBytes(s) + ChunkBytes(es, k)] + if stop == |es| then [] else Dumped(s, es, stop)
  }

  /** Any call finds enough room in a message of this size. */
  ghost predicate SizeIsEnough(s: SetHeader, es: seq<SetElem>, size: nat) {
    forall k :: 0 <= k <= |es| ==> |HeaderBytes(s)| + CallRoom(es, k) <= size
  }

  /** One call into a new message. */
  method DumpOne(s: SetHeader, iter: Iter<SetElem>, ghost es: seq<SetElem>, ghost k: nat, size: nat)
    returns (msg: bytes, again: bool)
    requires HeaderFits(s) && (forall e <- es :: ElemTextsFit(e))
    requires iter.list.Valid() && Holds(iter.list, es) && iter.At(k)
    requires k <= |es| && |HeaderBytes(s)| + CallRoom(es, k) <= size
    modifies iter`cur
    ensures msg == HeaderBytes(s) + ChunkBytes(es, k)
    ensures again == (ChunkEnd(es, k) < |es|)
    ensures iter.At(if again then ChunkEnd(es, k) else 0)
  {
    hide HeaderFits, ElemTextsFit, HeaderBytes, ChunkBytes, ChunkEnd, CallRoom;
    var m := new Message(size);
    again := BuildPayloadIter(m, s, iter, es, k);
    msg := m.data[..m.len];
    assert [] + HeaderBytes(s) + ChunkBytes(es, k) == HeaderBytes(s) + ChunkBytes(es, k);
  }

  lemma DumpedStep(s: SetHeader, es: seq<SetElem>, k: nat, msgs: seq<bytes>, msg: bytes)
    requires k <= |es| && Dump(es, k).Some? && msg == HeaderBytes(s) + ChunkBytes(es, k)
    ensures var stop := ChunkEnd(es, k);
      if stop == |es| then msgs + Dumped(s, es, k) == msgs + [msg]
      else k < stop && Dump(es, stop).Some? && msgs + Dumped(s, es, k) == (msgs + [msg]) + Dumped(s, es, stop)
  {
    hide HeaderBytes, ChunkBytes, ChunkEnd;
  }

  /** A dump: one new message after the other until a call returns 0. */
  method DumpAll(s: SetHeader, list: List<SetElem>, ghost es: seq<SetElem>, size: nat) returns (msgs: seq<bytes>)
    requires HeaderFits(s) && (forall e <- es :: ElemTextsFit(e))
    requires list.Valid() && Holds(list, es)
    requires Dump(es, 0).Some? && SizeIsEnough(s, es, size)
    ensures msgs == Dumped(s, es, 0)
  {
    hide HeaderFits, ElemTextsFit, HeaderBytes, ChunkBytes, ChunkEnd, CallRoom, Dumped, Dump;
    msgs := [];
    var iter := new Iter<SetElem>(list);
    var again := true;
    ghost var k: nat := 0;
    while again
      invariant k <= |es| && list.Valid() && Holds(list, es) && iter.list == list
      invariant again ==> iter.At(k) && Dump(es, k).Some? && msgs + Dumped(s, es, k) == Dumped(s, es, 0)
      invariant !again ==> msgs == Dumped(s, es, 0)
      decreases again, |es| - k
    {
      var msg: bytes;
      msg, again := DumpOne(s, iter, es, k, size);
      DumpedStep(s, es, k, msgs, msg);
      msgs := msgs + [msg];
      k := ChunkEnd(es, k);
    }
  }

  // ---------- when every element fits a list of its own ----------

  /** Then two times the longest list is room enough. */
  lemma FittingSize(s: SetHeader, es: seq<SetElem>, size: nat)
    requires AllFit(es) && size >= |HeaderBytes(s)| + 2 * 65535
    ensures SizeIsEnough(s, es, size)
  {
    hide Encode, ElemNests, ElemSize, AllFit, ChunkEnd, HeaderBytes;
    forall k | 0 <= k <= |es| ensures CallRoom(es, k) <= 2 * 65535 {
      if k < |es| {
        RoomOfCall(es, k, ChunkEnd(es, k));
      } else if es != [] {
        NestsSize(es[k..k]);
      }
    }
  }

  lemma RoomOfCall(es: seq<SetElem>, k: nat, stop: nat)
    requires k < |es| && AllFit(es) && stop == ChunkEnd(es, k)
    ensures ChunkRoom(es, k) <= 2 * 65535
  {
    hide Encode, ElemNests, ElemSize, ChunkEnd;
    ChunkFills(es, k, stop);
    if stop < |es| {
      ElemNestsStep(es, k, stop);
      ElemNestSize(es[stop], stop - k + 1);
      assert FitsList(es[stop]);
    }
  }

  /** Each message carries the header and, in one list nest, one chunk of the dump. */
  lemma {:induction false} DumpedChunks(s: SetHeader, es: seq<SetElem>, k: nat)
    requires k < |es| && AllFit(es) && Dump(es, k).Some?
    ensures forall i :: 0 <= i < |Dumped(s, es, k)| ==>
      Dumped(s, es, k)[i] == HeaderBytes(s)
        + NestBytes(NFTA_SET_ELEM_LIST_ELEMENTS, Encode(ElemNests(Dump(es, k).value[i], 1)))
    decreases |es| - k
  {
    hide Encode, ElemNests, AllFit, ChunkEnd, ChunkBody, HeaderBytes, NestBytes;
    var stop := ChunkEnd(es, k);
    ChunkWrites(es, k);
    DumpStarts(es, k);
    if stop < |es| {
      DumpedChunks(s, es, stop);
      DumpStep(es, k, stop);
      forall i | 0 <= i < |Dumped(s, es, k)|
        ensures Dumped(s, es, k)[i] == HeaderBytes(s)
          + NestBytes(NFTA_SET_ELEM_LIST_ELEMENTS, Encode(ElemNests(Dump(es, k).value[i], 1)))
      {
        if i > 0 {
          assert Dumped(s, es, k)[i] == Dumped(s, es, stop)[i - 1];
          assert Dump(es, k).value[i] == Dump(es, stop).value[i - 1];
        }
      }
    }
  }

  // ---------- reading the messages ----------

  function Payloads(attrs: seq<Attr>): seq<bytes> {
    seq(|attrs|, i requires 0 <= i < |attrs| => attrs[i].payload)
  }

  /** What a reader finds in the list nest of a message. */
  function ListedIn(msg: bytes): seq<bytes> {
    var list := LastPayload(Walk(msg), NFTA_SET_ELEM_LIST_ELEMENTS);
    if list.None? then [] else Payloads(Walk(list.value))
  }

  /** What a reader finds in several messages, in order. */
  function Listed(msgs: seq<bytes>): seq<bytes> {
    if msgs == [] then [] else ListedIn(msgs[0]) + Listed(msgs[1..])
  }

  /** The encoded elements. */
  function Encoded(es: seq<SetElem>): seq<bytes> {
    seq(|es|, i requires 0 <= i < |es| => Encode(ElemAttrs(es[i])))
  }

  /** Reading one message: the elements of its chunk, each in the nest of its own. */
  lemma ReadChunk(s: SetHeader, chunk: seq<SetElem>)
    requires HeaderFits(s) && ListSize(chunk) <= 65535
    ensures ListedIn(HeaderBytes(s) + NestBytes(NFTA_SET_ELEM_LIST_ELEMENTS, Encode(ElemNests(chunk, 1))))
         == Encoded(chunk)
  {
    hide Encode, Walk, Emit, LastPayload;
    var nests, header := ElemNests(chunk, 1), Emit(HeaderFields(s));
    var list := Nest(NFTA_SET_ELEM_LIST_ELEMENTS, nests);
    NestIsAttr(NFTA_SET_ELEM_LIST_ELEMENTS, nests);
    EncodeOne(list);
    EncodeConcat(header, [list]);
    HeaderAttrsFit(s);
    WalkEncode(header + [list]);
    LastPayloadAppend(header, list, NFTA_SET_ELEM_LIST_ELEMENTS);
    FitsInside(nests);
    WalkEncode(nests);
    assert Payloads(nests) == Encoded(chunk);
  }

  lemma HeaderAttrsFit(s: SetHeader)
    requires HeaderFits(s)
    ensures Fits(Emit(HeaderFields(s)))
  {
    FitsFields(HeaderFields(s));
  }

  /** A message of an empty set has no list. */
  lemma ReadHeaderOnly(s: SetHeader)
    requires HeaderFits(s)
    ensures ListedIn(HeaderBytes(s)) == []
  {
    hide Encode, Walk, Emit, LastPayload;
    HeaderAttrsFit(s);
    WalkEncode(Emit(HeaderFields(s)));
    LastPayloadEmit(HeaderFields(s), NFTA_SET_ELEM_LIST_ELEMENTS);
    LastOfAbsent(HeaderFields(s), NFTA_SET_ELEM_LIST_ELEMENTS);
  }

  lemma EncodedConcat(a: seq<SetElem>, b: seq<SetElem>)
    ensures Encoded(a + b) == Encoded(a) + Encoded(b)
  {
    hide Encode, ElemAttrs;
  }

  lemma {:induction false} ReadDump(s: SetHeader, es: seq<SetElem>, k: nat)
    requires k < |es| && AllFit(es) && HeaderFits(s) && Dump(es, k).Some?
    ensures Listed(Dumped(s, es, k)) == Encoded(es[k..])
    decreases |es| - k
  {
    hide Encode, ElemNests, AllFit, ChunkEnd, ChunkBody, HeaderBytes, NestBytes, ListedIn, ListSize, HeaderFits, Dump,
         Encoded;
    var stop, msgs := ChunkEnd(es, k), Dumped(s, es, k);
    ChunkFills(es, k, stop);
    ChunkWrites(es, k);
    ReadChunk(s, es[k..stop]);
    assert ListedIn(msgs[0]) == Encoded(es[k..stop]);
    if stop < |es| {
      DumpGoesOn(es, k, stop);
      ReadDump(s, es, stop);
      assert msgs[1..] == Dumped(s, es, stop);
      assert es[k..] == es[k..stop] + es[stop..];
      EncodedConcat(es[k..stop], es[stop..]);
    } else {
      assert msgs[1..] == [] && es[k..stop] == es[k..];
      assert Listed(msgs) == Encoded(es[k..]) + [];
    }
  }

  lemma DumpGoesOn(es: seq<SetElem>, k: nat, stop: nat)
    requires k < |es| && Dump(es, k).Some? && stop == ChunkEnd(es, k) < |es|
    ensures k < stop && Dump(es, stop).Some?
  {
  }

  lemma FittingIsListed(s: SetHeader, es: seq<SetElem>)
    requires AllFit(es) && HeaderFits(s) && Dump(es, 0).Some?
    ensures Listed(Dumped(s, es, 0)) == Encoded(es)
  {
    hide ListedIn, HeaderBytes, HeaderFits, Encode;
    if es == [] {
      var msgs := Dumped(s, es, 0);
      ReadHeaderOnly(s);
      assert msgs == [HeaderBytes(s)] by {
        assert HeaderBytes(s) + [] == HeaderBytes(s);
      }
      assert msgs[1..] == [] && Encoded(es) == [];
    } else {
      ReadDump(s, es, 0);
      assert es[0..] == es;
    }
  }

  /** A 16-bit length leaves 65531 bytes for a payload. */
  lemma {:induction false} WalkBounded(b: bytes)
    ensures forall a <- Walk(b) :: |a.payload| <= 65535 - NLA_HDRLEN
    decreases |b|
  {
    if |b| >= NLA_HDRLEN && NLA_HDRLEN <= GetLE16(b) <= |b| {
      WalkBounded(if Align(GetLE16(b)) <= |b| then b[Align(GetLE16(b))..] else []);
    }
  }

  lemma {:induction false} LastPayloadIsOne(attrs: seq<Attr>, typ: nat)
    requires LastPayload(attrs, typ).Some?
    ensures exists a <- attrs :: a.payload == LastPayload(attrs, typ).value
  {
    var n := |attrs| - 1;
    assert attrs[n] in attrs;
    if TypeOf(attrs[n]) != typ {
      LastPayloadIsOne(attrs[..n], typ);
    }
  }

  /** A payload inside a list is shorter still. */
  lemma ListedBounded(msg: bytes)
    ensures forall i :: 0 <= i < |ListedIn(msg)| ==> |ListedIn(msg)[i]| <= 65535 - 2 * NLA_HDRLEN
  {
    hide Walk, LastPayload;
    var list := LastPayload(Walk(msg), NFTA_SET_ELEM_LIST_ELEMENTS);
    if list.Some? {
      WalkBounded(msg);
      LastPayloadIsOne(Walk(msg), NFTA_SET_ELEM_LIST_ELEMENTS);
      WalkShorter(list.value);
      var attrs := Walk(list.value);
      assert forall i :: 0 <= i < |attrs| ==> attrs[i] in attrs;
    }
  }

  lemma {:induction false} AllListedBounded(msgs: seq<bytes>)
    ensures forall i :: 0 <= i < |Listed(msgs)| ==> |Listed(msgs)[i]| <= 65535 - 2 * NLA_HDRLEN
  {
    hide ListedIn;
    if msgs != [] {
      ListedBounded(msgs[0]);
      AllListedBounded(msgs[1..]);
    }
  }

  /** Conservation, on the bytes: whoever walks the list nests of all messages of a
      dump, in order, finds every element of the set once, in order, and nothing else,
      exactly when every element fits a list of its own. */
  lemma DumpIsComplete(s: SetHeader, es: seq<SetElem>)
    requires HeaderFits(s) && Dump(es, 0).Some?
    ensures Listed(Dumped(s, es, 0)) == Encoded(es) <==> AllFit(es)
  {
    hide Listed, Dumped, HeaderFits, Encode, ElemAttrs, Dump;
    if AllFit(es) {
      FittingIsListed(s, es);
    } else {
      var e :| e in es && !FitsList(e);
      var i :| 0 <= i < |es| && es[i] == e;
      assert |Encoded(es)[i]| > 65535 - 2 * NLA_HDRLEN;
      AllListedBounded(Dumped(s, es, 0));
    }
  }

  /** Then each of them parses to the normal form of its element. */
  lemma DumpedElementsParse(s: SetHeader, es: seq<SetElem>, i: nat)
    requires AllFit(es) && HeaderFits(s) && i < |es|
    ensures Dump(es, 0).Some? && |Listed(Dumped(s, es, 0))| == |es|
    ensures ParseElem(Listed(Dumped(s, es, 0))[i]) == NormElem(es[i])
  {
    hide Encode, ParseElem, NormElem, Dumped, Listed, Dump;
    FittingDumpEnds(es, 0);
    DumpIsComplete(s, es);
    assert FitsList(es[i]);
    ParseBuiltElem(es[i]);
  }
}
