/** What was written is found under its number: the last attribute of each type in the
    messages that the builders write. */
module WireLast {
  import opened Wrappers
  import opened Bytes
  import opened Netlink
  import opened Messages
  import opened Exprs
  import opened Rules
  import opened SetElems
  import opened ChunkedDump
  import opened ChunkRuns
  import opened DumpMessages
  import opened Wire
  import opened WireRead

  // ---------- payloads ----------

  function U32Bytes(v: Option<u32>): Option<bytes> {
    if v.Some? then Some(BE32(v.value)) else None
  }

  function U64Bytes(v: Option<u64>): Option<bytes> {
    if v.Some? then Some(BE64(v.value)) else None
  }

  /** A string with its NUL. */
  function TextBytes(v: Option<CString>): Option<bytes> {
    if v.Some? then Some(v.value + [0]) else None
  }

  function NestPayload(v: Option<seq<Attr>>): Option<bytes> {
    if v.Some? then Some(Encode(v.value)) else None
  }

  /** Field `i` is the last one of its type that is written, or none of them is. */
  lemma FoundLast(fs: seq<Field>, i: nat)
    requires i < |fs| && Fits(Emit(fs)) && forall f <- fs :: f.typ < 0x4000
    requires forall j :: i < j < |fs| ==> fs[j].typ != fs[i].typ || fs[j].payload.None?
    requires fs[i].payload.Some? || forall f <- fs :: f.typ != fs[i].typ || f.payload.None?
    ensures At(Encode(Emit(fs)), fs[i].typ) == fs[i].payload
  {
    hide Encode, Emit, Walk, LastPayload, LastOf;
    WalkEncode(Emit(fs));
    LastPayloadEmit(fs, fs[i].typ);
    if fs[i].payload.Some? {
      LastOfLatest(fs, i);
    } else {
      LastOfAbsent(fs, fs[i].typ);
    }
  }

  // ---------- rules ----------

  ghost predicate DistinctTypes(fs: seq<Field>) {
    && (forall f <- fs :: f.typ < 0x4000)
    && forall i, j :: 0 <= i < j < |fs| ==> fs[i].typ != fs[j].typ
  }

  lemma Found(fs: seq<Field>, i: nat, typ: nat)
    requires i < |fs| && Fits(Emit(fs)) && DistinctTypes(fs) && fs[i].typ == typ
    ensures At(Encode(Emit(fs)), typ) == fs[i].payload
  {
    hide Encode, Emit, Walk, LastPayload, Fits;
    FoundLast(fs, i);
  }

  /** A rule message holds the table as attribute 1, the chain as 2, the handle as 3, the
      expressions as 4, the compat values as 5, the position as 6, the user data as 7, the
      id as 9 and the position id as 10, and nothing else. */
  lemma RuleFound(r: RuleValue)
    requires Fits(Emit(RuleFields(r)))
    ensures At(RuleBytes(r), 1) == TextBytes(r.table) && At(RuleBytes(r), 2) == TextBytes(r.chain)
    ensures At(RuleBytes(r), 3) == U64Bytes(r.handle) && At(RuleBytes(r), 6) == U64Bytes(r.position)
    ensures At(RuleBytes(r), 7) == r.userdata
    ensures At(RuleBytes(r), 4) == NestPayload(if r.exprs != [] then Some(ListAttrs(r.exprs)) else None)
    ensures At(RuleBytes(r), 5) == NestPayload(CompatNest(r))
    ensures At(RuleBytes(r), 9) == U32Bytes(r.id) && At(RuleBytes(r), 10) == U32Bytes(r.positionId)
    ensures forall typ: nat :: typ !in {1, 2, 3, 4, 5, 6, 7, 9, 10} ==> At(RuleBytes(r), typ) == None
  {
    hide Encode, Emit, At, ListAttrs, CompatFields, Fits;
    var fs := RuleFields(r);
    Found(fs, 0, 1);
    Found(fs, 1, 2);
    Found(fs, 2, 3);
    Found(fs, 3, 6);
    Found(fs, 4, 7);
    Found(fs, 5, 4);
    Found(fs, 6, 5);
    CompatWire(r);
    Found(fs, 7, 9);
    Found(fs, 8, 10);
    forall typ: nat | typ !in {1, 2, 3, 4, 5, 6, 7, 9, 10} ensures At(RuleBytes(r), typ) == None {
      NotFound(fs, typ);
    }
  }

  lemma NotFound(fs: seq<Field>, typ: nat)
    requires Fits(Emit(fs)) && forall f <- fs :: f.typ < 0x4000 && f.typ != typ
    ensures At(Encode(Emit(fs)), typ) == None
  {
    hide Encode, Emit, Walk, LastPayload, LastOf;
    WalkEncode(Emit(fs));
    LastPayloadEmit(fs, typ);
    LastOfAbsent(fs, typ);
  }

  // ---------- set elements ----------

  /** The data of an element, which is a value when there is one. */
  function DataNest(e: SetElem): Option<seq<Attr>> {
    if e.data.Some? then ValueNest(e.data)
    else if e.verdict.Some? then Some(VerdictAttrs(e.verdict.value, e.chain, None)) else None
  }

  lemma ElemFound(e: SetElem, b: bytes)
    requires Fits(ElemAttrs(e)) && b == Encode(ElemAttrs(e))
    ensures At(b, 1) == NestPayload(ValueNest(e.key)) && At(b, 10) == NestPayload(ValueNest(e.keyEnd))
    ensures At(b, 2) == NestPayload(DataNest(e))
    ensures At(b, 3) == U32Bytes(e.flags) && At(b, 4) == U64Bytes(e.timeout) && At(b, 5) == U64Bytes(e.expiration)
    ensures At(b, 6) == e.userdata && At(b, 9) == TextBytes(e.objref)
    ensures At(b, 7) == NestPayload(if |e.exprs| == 1 then Some(ExprAttrs(e.exprs[0])) else None)
    ensures At(b, 11) == NestPayload(if |e.exprs| > 1 then Some(ListAttrs(e.exprs)) else None)
  {
    hide Encode, Emit, At, ListAttrs, ExprAttrs, VerdictAttrs, ValueAttrs, FieldValue, Fits;
    var fs := ElemFields(e);
    ElemField(e, fs, 0);
    ElemField(e, fs, 1);
    ElemField(e, fs, 2);
    ElemField(e, fs, 3);
    ElemField(e, fs, 4);
    ElemField(e, fs, 7);
    ElemField(e, fs, 8);
    ElemField(e, fs, 9);
    ElemField(e, fs, 10);
    KeyPayload(1, e.key);
    KeyPayload(10, e.keyEnd);
    ElemDataFound(e, fs);
  }

  lemma KeyPayload(typ: nat, v: Option<RegValue>)
    ensures FieldValue(typ, v).typ == typ && FieldValue(typ, v).payload == NestPayload(ValueNest(v))
  {
    hide Encode;
  }

  lemma ElemField(e: SetElem, fs: seq<Field>, i: nat)
    requires fs == ElemFields(e) && Fits(Emit(fs)) && i < 11 && i != 5 && i != 6
    ensures At(Encode(Emit(fs)), fs[i].typ) == fs[i].payload
  {
    hide Encode, Emit, At, ListAttrs, ExprAttrs, VerdictAttrs, ValueAttrs, Fits;
    FoundLast(fs, i);
  }

  lemma ElemDataFound(e: SetElem, fs: seq<Field>)
    requires fs == ElemFields(e) && Fits(Emit(fs))
    ensures At(Encode(Emit(fs)), 2) == NestPayload(DataNest(e))
  {
    hide Encode, Emit, At, ListAttrs, ExprAttrs, VerdictAttrs, Fits;
    KeyPayload(2, e.data);
    FoundLast(fs, if e.data.None? && e.verdict.Some? then 5 else 6);
  }

  // ---------- messages of a dump ----------

  /** The header names the set as attribute 2, its id as 4 and the table as 1. */
  lemma HeaderFound(s: SetHeader)
    requires HeaderFits(s)
    ensures At(HeaderBytes(s), 2) == TextBytes(s.name) && At(HeaderBytes(s), 4) == U32Bytes(s.id)
    ensures At(HeaderBytes(s), 1) == TextBytes(s.table)
  {
    hide Encode, Emit, At, Fits;
    HeaderAttrsFit(s);
    Found(HeaderFields(s), 0, 2);
    Found(HeaderFields(s), 1, 4);
    Found(HeaderFields(s), 2, 1);
  }

  /** The same in a whole message, with the list of elements as attribute 3 behind it. */
  lemma MessageFound(s: SetHeader, chunk: seq<SetElem>, msg: bytes)
    requires HeaderFits(s) && ListSize(chunk) <= 65535
    requires msg == HeaderBytes(s) + NestBytes(NFTA_SET_ELEM_LIST_ELEMENTS, Encode(ElemNests(chunk, 1)))
    ensures At(msg, 2) == TextBytes(s.name) && At(msg, 4) == U32Bytes(s.id) && At(msg, 1) == TextBytes(s.table)
    ensures At(msg, 3) == Some(Encode(ElemNests(chunk, 1)))
  {
    hide Encode, Walk, Emit, ElemNests, HeaderBytes, NestBytes;
    DumpWire(s, chunk);
    HeaderWire(s);
    HeaderFound(s);
    var header, list := Walk(HeaderBytes(s)), Attr(0x8003, Encode(ElemNests(chunk, 1)));
    assert Walk(msg)[..|header|] == header && Walk(msg)[|header|] == list;
    TypeOfNest();
    assert At(msg, 3) == Some(list.payload);
  }

  lemma TypeOfNest()
    ensures forall p :: TypeOf(Attr(0x8003, p)) == 3
  {
  }

  /** Every message of a dump starts with the attributes of the header, whatever follows. */
  lemma {:induction false} DumpHeaders(s: SetHeader, es: seq<SetElem>, k: nat, i: nat)
    requires HeaderFits(s) && k <= |es| && Dump(es, k).Some? && i < |Dumped(s, es, k)|
    ensures TextAt(2, s.name) + U32At(4, s.id) + TextAt(1, s.table) <= Walk(Dumped(s, es, k)[i])
    decreases i
  {
    hide Walk, HeaderBytes, ChunkBytes, ChunkEnd;
    if i == 0 {
      HeaderFirst(s, ChunkBytes(es, k));
    } else {
      DumpHeaders(s, es, ChunkEnd(es, k), i - 1);
    }
  }

  lemma HeaderFirst(s: SetHeader, rest: bytes)
    requires HeaderFits(s)
    ensures TextAt(2, s.name) + U32At(4, s.id) + TextAt(1, s.table) <= Walk(HeaderBytes(s) + rest)
  {
    hide Encode, Walk, Emit, Fits;
    HeaderAttrsFit(s);
    WalkThrough(Emit(HeaderFields(s)), rest);
    WalkEncode(Emit(HeaderFields(s)));
    HeaderWire(s);
  }

  /** A walk passes through what was written and goes on behind it. */
  lemma {:induction false} WalkThrough(attrs: seq<Attr>, rest: bytes)
    requires Fits(attrs)
    ensures Walk(Encode(attrs) + rest) == attrs + Walk(rest)
  {
    hide Walk, AttrBytes;
    if attrs == [] {
      assert [] + rest == rest && [] + Walk(rest) == Walk(rest);
    } else {
      WalkThrough(attrs[1..], rest);
      ConcatAssociative(AttrBytes(attrs[0]), Encode(attrs[1..]), rest);
      WalkOne(attrs[0], Encode(attrs[1..]) + rest);
    }
  }
}
