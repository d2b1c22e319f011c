/** The attributes on the wire, with their types as numbers: what each builder writes,
    in order, for every object (include/linux/netfilter/nf_tables.h). */
module Wire {
  import opened Wrappers
  import opened Bytes
  import opened Netlink
  import opened Messages
  import opened Exprs
  import opened Rules
  import opened SetElems
  import opened ChunkedDump
  import opened ChunkRuns
  import opened DumpMessages
  import opened Devices
  import opened Hooks

  // ---------- one attribute ----------

  /** A 32-bit number with the high byte first, when there is one. */
  function U32At(typ: u16, v: Option<u32>): seq<Attr> {
    if v.Some? then [Attr(typ, BE32(v.value))] else []
  }

  function U64At(typ: u16, v: Option<u64>): seq<Attr> {
    if v.Some? then [Attr(typ, BE64(v.value))] else []
  }

  /** A string with its NUL. */
  function TextAt(typ: u16, v: Option<CString>): seq<Attr> {
    if v.Some? then [Attr(typ, v.value + [0])] else []
  }

  function BytesAt(typ: u16, v: Option<bytes>): seq<Attr> {
    if v.Some? then [Attr(typ, v.value)] else []
  }

  /** A nest, with the flag 0x8000 in its type. */
  function NestAt(typ: nat, v: Option<seq<Attr>>): seq<Attr>
    requires typ < 0x4000
  {
    if v.Some? then [Attr(typ + 0x8000, Encode(v.value))] else []
  }

  lemma OneField(f: Field, typ: nat)
    requires f.typ == typ < 0x4000
    ensures EmitOne(f) == if f.payload.None? then []
                          else [Attr(if f.nested then typ + 0x8000 else typ, f.payload.value)]
  {
  }

  lemma OneU32(typ: nat, v: Option<u32>)
    requires typ < 0x4000
    ensures EmitOne(FieldU32(typ, v)) == U32At(typ, v)
  {
  }

  lemma OneU64(typ: nat, v: Option<u64>)
    requires typ < 0x4000
    ensures EmitOne(FieldU64(typ, v)) == U64At(typ, v)
  {
  }

  lemma OneText(typ: nat, v: Option<CString>)
    requires typ < 0x4000
    ensures EmitOne(FieldText(typ, v)) == TextAt(typ, v)
  {
  }

  lemma OneBytes(typ: nat, v: Option<bytes>)
    requires typ < 0x4000
    ensures EmitOne(FieldBytes(typ, v)) == BytesAt(typ, v)
  {
  }

  lemma OneNest(typ: nat, v: Option<seq<Attr>>)
    requires typ < 0x4000
    ensures EmitOne(FieldNest(typ, v)) == NestAt(typ, v)
  {
    hide Encode;
  }

  /** The attributes of a field list up to field `i`. */
  lemma EmitTo(fs: seq<Field>, i: nat, before: seq<Attr>, one: seq<Attr>)
    requires i < |fs| && Emit(fs[..i]) == before && EmitOne(fs[i]) == one
    ensures Emit(fs[..i + 1]) == before + one
  {
    assert fs[..i + 1][..i] == fs[..i];
  }

  lemma EmitNothing(fs: seq<Field>)
    ensures Emit(fs[..0]) == []
  {
  }

  /** Concatenations of up to two, three, ... fields. */
  lemma EmitTwo(fs: seq<Field>)
    requires |fs| == 2
    ensures Emit(fs) == EmitOne(fs[0]) + EmitOne(fs[1])
  {
    hide EmitOne;
    EmitNothing(fs);
    EmitTo(fs, 0, [], EmitOne(fs[0]));
    assert [] + EmitOne(fs[0]) == EmitOne(fs[0]);
    EmitTo(fs, 1, EmitOne(fs[0]), EmitOne(fs[1]));
    assert fs[..2] == fs;
  }

  lemma EmitThree(fs: seq<Field>)
    requires |fs| == 3
    ensures Emit(fs) == EmitOne(fs[0]) + EmitOne(fs[1]) + EmitOne(fs[2])
  {
    hide EmitOne, Emit;
    EmitTwo(fs[..2]);
    EmitTo(fs, 2, Emit(fs[..2]), EmitOne(fs[2]));
    assert fs[..3] == fs;
  }

  lemma EmitFour(fs: seq<Field>)
    requires |fs| == 4
    ensures Emit(fs) == EmitOne(fs[0]) + EmitOne(fs[1]) + EmitOne(fs[2]) + EmitOne(fs[3])
  {
    hide EmitOne, Emit;
    EmitThree(fs[..3]);
    EmitTo(fs, 3, Emit(fs[..3]), EmitOne(fs[3]));
    assert fs[..4] == fs;
  }

  lemma EmitFive(fs: seq<Field>)
    requires |fs| == 5
    ensures Emit(fs) == EmitOne(fs[0]) + EmitOne(fs[1]) + EmitOne(fs[2]) + EmitOne(fs[3]) + EmitOne(fs[4])
  {
    hide EmitOne, Emit;
    EmitFour(fs[..4]);
    EmitTo(fs, 4, Emit(fs[..4]), EmitOne(fs[4]));
    assert fs[..5] == fs;
  }

  lemma EmitSeven(fs: seq<Field>)
    requires |fs| == 7
    ensures Emit(fs) == EmitOne(fs[0]) + EmitOne(fs[1]) + EmitOne(fs[2]) + EmitOne(fs[3]) + EmitOne(fs[4])
                        + EmitOne(fs[5]) + EmitOne(fs[6])
  {
    hide EmitOne, Emit;
    EmitFive(fs[..5]);
    EmitTo(fs, 5, Emit(fs[..5]), EmitOne(fs[5]));
    EmitTo(fs, 6, Emit(fs[..6]), EmitOne(fs[6]));
    assert fs[..7] == fs;
  }

  lemma EmitNine(fs: seq<Field>)
    requires |fs| == 9
    ensures Emit(fs) == EmitOne(fs[0]) + EmitOne(fs[1]) + EmitOne(fs[2]) + EmitOne(fs[3]) + EmitOne(fs[4])
                        + EmitOne(fs[5]) + EmitOne(fs[6]) + EmitOne(fs[7]) + EmitOne(fs[8])
  {
    hide EmitOne, Emit;
    EmitSeven(fs[..7]);
    EmitTo(fs, 7, Emit(fs[..7]), EmitOne(fs[7]));
    EmitTo(fs, 8, Emit(fs[..8]), EmitOne(fs[8]));
    assert fs[..9] == fs;
  }

  lemma EmitEleven(fs: seq<Field>)
    requires |fs| == 11
    ensures Emit(fs) == EmitOne(fs[0]) + EmitOne(fs[1]) + EmitOne(fs[2]) + EmitOne(fs[3]) + EmitOne(fs[4])
                        + EmitOne(fs[5]) + EmitOne(fs[6]) + EmitOne(fs[7]) + EmitOne(fs[8]) + EmitOne(fs[9])
                        + EmitOne(fs[10])
  {
    hide EmitOne, Emit;
    EmitNine(fs[..9]);
    EmitTo(fs, 9, Emit(fs[..9]), EmitOne(fs[9]));
    EmitTo(fs, 10, Emit(fs[..10]), EmitOne(fs[10]));
    assert fs[..11] == fs;
  }

  // ---------- data registers and expressions ----------

  /** A value: the nest holds it as attribute 1. */
  function ValueNest(v: Option<RegValue>): Option<seq<Attr>> {
    if v.Some? then Some([Attr(1, v.value)]) else None
  }

  lemma OneValue(typ: nat, v: Option<RegValue>)
    requires typ < 0x4000
    ensures EmitOne(FieldValue(typ, v)) == NestAt(typ, ValueNest(v))
  {
    hide Encode;
    OneNest(typ, ValueNest(v));
  }

  /** A verdict: attribute 2 is a nest with code, chain name and chain id. */
  lemma VerdictWire(code: u32, chain: Option<CString>, chainId: Option<u32>)
    ensures VerdictAttrs(code, chain, chainId)
         == NestAt(2, Some(U32At(1, Some(code)) + TextAt(2, chain) + U32At(3, chainId)))
  {
    hide Encode, Emit, EmitOne;
    EmitThree(VerdictFields(code, chain, chainId));
    OneU32(1, Some(code));
    OneText(2, chain);
    OneU32(3, chainId);
  }

  /** The names that expressions are sent with. */
  lemma NamesOnTheWire()
    ensures OpsName(OpsImmediate) == [105, 109, 109, 101, 100, 105, 97, 116, 101]
    ensures OpsName(OpsCmp) == [99, 109, 112]
    ensures OpsName(OpsLookup) == [108, 111, 111, 107, 117, 112]
    ensures OpsName(OpsBitwise) == [98, 105, 116, 119, 105, 115, 101]
    ensures OpsName(OpsDynset) == [100, 121, 110, 115, 101, 116]
    ensures OpsName(OpsNotrack) == [110, 111, 116, 114, 97, 99, 107]
  {
  }

  /** An expression: its name as attribute 1, and what its type writes as nest 2. */
  lemma ExprWire(e: Expr)
    ensures ExprAttrs(e) == TextAt(1, Some(OpsName(OpsOf(e))))
                            + NestAt(2, if e.Notrack? then None else Some(Emit(DataFields(e))))
  {
    hide Encode, Emit, EmitOne, DataFields, OpsName;
    EmitTwo(ExprFields(e));
    OneText(1, Some(OpsName(OpsOf(e))));
    OneNest(2, if e.Notrack? then None else Some(Emit(DataFields(e))));
  }

  /** A list of expressions: each in a nest of type 1. */
  lemma {:induction false} ListWire(es: seq<Expr>, i: nat)
    requires i < |es|
    ensures |ListAttrs(es)| == |es| && ListAttrs(es)[i] == Attr(0x8001, Encode(ExprAttrs(es[i])))
  {
    hide Encode, ExprAttrs;
    if |es| > 1 {
      ListWire(es[1..], if i > 0 then i - 1 else 0);
    }
  }

  lemma ImmediateWire(e: Expr)
    requires e.Immediate?
    ensures Emit(DataFields(e)) == U32At(1, e.dreg)
      + NestAt(2, if e.data.Some? then ValueNest(e.data)
                  else if e.verdict.Some? then Some(VerdictAttrs(e.verdict.value, e.chain, e.chainId))
                  else None)
  {
    hide Encode, Emit, EmitOne, VerdictAttrs;
    EmitTwo(DataFields(e));
    OneU32(1, e.dreg);
    OneNest(2, ImmediateData(e));
  }

  lemma CmpWire(e: Expr)
    requires e.Cmp?
    ensures Emit(DataFields(e)) == U32At(1, e.sreg) + U32At(2, e.op) + NestAt(3, ValueNest(e.data))
  {
    hide Encode, Emit, EmitOne;
    EmitThree(DataFields(e));
    OneU32(1, e.sreg);
    OneU32(2, e.op);
    OneValue(3, e.data);
  }

  lemma LookupWire(e: Expr)
    requires e.Lookup?
    ensures Emit(DataFields(e)) == U32At(2, e.sreg) + U32At(3, e.dreg) + TextAt(1, e.setName) + U32At(4, e.setId)
                                   + U32At(5, e.lookupFlags)
  {
    hide Encode, Emit, EmitOne;
    EmitFive(DataFields(e));
    OneU32(2, e.sreg);
    OneU32(3, e.dreg);
    OneText(1, e.setName);
    OneU32(4, e.setId);
    OneU32(5, e.lookupFlags);
  }

  lemma BitwiseWire(e: Expr)
    requires e.Bitwise?
    ensures Emit(DataFields(e)) == U32At(1, e.sreg) + U32At(2, e.dreg) + U32At(6, e.op) + U32At(3, e.len)
      + NestAt(4, ValueNest(e.mask)) + NestAt(5, ValueNest(e.xor)) + NestAt(7, ValueNest(e.data))
  {
    hide Encode, Emit, EmitOne, FieldValue;
    EmitSeven(DataFields(e));
    OneU32(1, e.sreg);
    OneU32(2, e.dreg);
    OneU32(6, e.op);
    OneU32(3, e.len);
    OneValue(4, e.mask);
    OneValue(5, e.xor);
    OneValue(7, e.data);
  }

  /** A single inner expression is attribute 7 itself, several are the list 10. */
  lemma DynsetWire(e: Expr)
    requires e.Dynset?
    ensures Emit(DataFields(e)) == U32At(4, e.sregKey) + U32At(5, e.sregData) + U32At(3, e.op) + U64At(6, e.timeout)
      + TextAt(1, e.setName) + U32At(2, e.setId)
      + NestAt(7, if |e.exprs| == 1 then Some(ExprAttrs(e.exprs[0])) else None)
      + NestAt(10, if |e.exprs| > 1 then Some(ListAttrs(e.exprs)) else None)
      + U32At(9, e.dynsetFlags)
  {
    hide Encode, Emit, EmitOne, ExprAttrs, ListAttrs;
    EmitNine(DataFields(e));
    OneU32(4, e.sregKey);
    OneU32(5, e.sregData);
    OneU32(3, e.op);
    OneU64(6, e.timeout);
    OneText(1, e.setName);
    OneU32(2, e.setId);
    OneNest(7, if |e.exprs| == 1 then Some(ExprAttrs(e.exprs[0])) else None);
    OneNest(10, if |e.exprs| > 1 then Some(ListAttrs(e.exprs)) else None);
    OneU32(9, e.dynsetFlags);
  }

  /** A new expression has nothing to write. */
  lemma FreshWritesNothing(o: Ops)
    ensures OpsOf(Fresh(o)) == o && Emit(DataFields(Fresh(o))) == []
  {
    hide Emit, EmitOne, Encode;
    match o
    case OpsImmediate => ImmediateWire(Fresh(o));
    case OpsCmp => CmpWire(Fresh(o));
    case OpsLookup => LookupWire(Fresh(o));
    case OpsBitwise => BitwiseWire(Fresh(o));
    case OpsDynset => DynsetWire(Fresh(o));
    case OpsNotrack => EmitNothing(DataFields(Notrack));
  }

  // ---------- rules ----------

  function CompatNest(r: RuleValue): Option<seq<Attr>> {
    if r.compatProto.Some? && r.compatFlags.Some?
    then Some(U32At(1, r.compatProto) + U32At(2, r.compatFlags)) else None
  }

  lemma CompatWire(r: RuleValue)
    ensures Emit(CompatFields(r)) == U32At(1, r.compatProto) + U32At(2, r.compatFlags)
  {
    hide Encode, Emit, EmitOne;
    EmitTwo(CompatFields(r));
    OneU32(1, r.compatProto);
    OneU32(2, r.compatFlags);
  }

  /** A rule message, attribute by attribute. */
  lemma RuleWire(r: RuleValue)
    requires Fits(Emit(RuleFields(r)))
    ensures Walk(RuleBytes(r)) == TextAt(1, r.table) + TextAt(2, r.chain) + U64At(3, r.handle) + U64At(6, r.position)
      + BytesAt(7, r.userdata) + NestAt(4, if r.exprs != [] then Some(ListAttrs(r.exprs)) else None)
      + NestAt(5, CompatNest(r)) + U32At(9, r.id) + U32At(10, r.positionId)
  {
    hide Encode, Emit, EmitOne, ListAttrs, Walk;
    var fs := RuleFields(r);
    WalkEncode(Emit(fs));
    EmitNine(fs);
    OneText(1, r.table);
    OneText(2, r.chain);
    OneU64(3, r.handle);
    OneU64(6, r.position);
    OneBytes(7, r.userdata);
    OneNest(4, if r.exprs != [] then Some(ListAttrs(r.exprs)) else None);
    CompatWire(r);
    OneNest(5, CompatNest(r));
    OneU32(9, r.id);
    OneU32(10, r.positionId);
  }

  // ---------- set elements and their messages ----------

  lemma ElemWire(e: SetElem)
    ensures ElemAttrs(e) == U32At(3, e.flags) + U64At(4, e.timeout) + U64At(5, e.expiration)
      + NestAt(1, ValueNest(e.key)) + NestAt(10, ValueNest(e.keyEnd))
      + NestAt(2, if e.verdict.Some? then Some(VerdictAttrs(e.verdict.value, e.chain, None)) else None)
      + NestAt(2, ValueNest(e.data)) + BytesAt(6, e.userdata) + TextAt(9, e.objref)
      + NestAt(7, if |e.exprs| == 1 then Some(ExprAttrs(e.exprs[0])) else None)
      + NestAt(11, if |e.exprs| > 1 then Some(ListAttrs(e.exprs)) else None)
  {
    hide Encode, Emit, EmitOne, ExprAttrs, ListAttrs, VerdictAttrs, FieldValue;
    EmitEleven(ElemFields(e));
    OneU32(3, e.flags);
    OneU64(4, e.timeout);
    OneU64(5, e.expiration);
    OneValue(1, e.key);
    OneValue(10, e.keyEnd);
    OneNest(2, if e.verdict.Some? then Some(VerdictAttrs(e.verdict.value, e.chain, None)) else None);
    OneValue(2, e.data);
    OneBytes(6, e.userdata);
    OneText(9, e.objref);
    OneNest(7, if |e.exprs| == 1 then Some(ExprAttrs(e.exprs[0])) else None);
    OneNest(11, if |e.exprs| > 1 then Some(ListAttrs(e.exprs)) else None);
  }

  /** The header of a message about elements: the set as 2, its id as 4, the table as 1. */
  lemma HeaderWire(s: SetHeader)
    requires HeaderFits(s)
    ensures Walk(HeaderBytes(s)) == TextAt(2, s.name) + U32At(4, s.id) + TextAt(1, s.table)
  {
    hide Encode, Walk, Emit, EmitOne;
    HeaderAttrsFit(s);
    WalkEncode(Emit(HeaderFields(s)));
    EmitThree(HeaderFields(s));
    OneText(2, s.name);
    OneU32(4, s.id);
    OneText(1, s.table);
  }

  /** A message of a dump: the header, then the list of elements as nest 3. */
  lemma DumpWire(s: SetHeader, chunk: seq<SetElem>)
    requires HeaderFits(s) && ListSize(chunk) <= 65535
    ensures Walk(HeaderBytes(s) + NestBytes(NFTA_SET_ELEM_LIST_ELEMENTS, Encode(ElemNests(chunk, 1))))
         == TextAt(2, s.name) + U32At(4, s.id) + TextAt(1, s.table) + [Attr(0x8003, Encode(ElemNests(chunk, 1)))]
  {
    hide Encode, Walk, Emit, ElemNests;
    var nests, header := ElemNests(chunk, 1), Emit(HeaderFields(s));
    var list := Nest(3, nests);
    NestIsAttr(3, nests);
    EncodeOne(list);
    EncodeConcat(header, [list]);
    HeaderAttrsFit(s);
    WalkEncode(header);
    WalkEncode(header + [list]);
    HeaderWire(s);
  }

  /** Element number `i` of a list, counted from 1, is in a nest whose type is its number. */
  lemma ElemNestWire(chunk: seq<SetElem>, i: nat)
    requires i < |chunk| && i < 0x3FFF
    ensures ElemNests(chunk, 1)[i] == Attr(0x8000 + i + 1, Encode(ElemAttrs(chunk[i])))
  {
    hide Encode, ElemAttrs;
  }

  // ---------- hooks and devices ----------

  lemma HookWire(h: Hook)
    ensures Emit(HookFields(h)) == U32At(1, h.hooknum) + U32At(2, h.prio) + TextAt(3, h.dev)
      + NestAt(4, if h.dev.None? && h.devices.Some? then Some(DeviceAttrs(h.devices.value)) else None)
  {
    hide Encode, Emit, EmitOne, DeviceAttrs;
    EmitFour(HookFields(h));
    OneU32(1, h.hooknum);
    OneU32(2, h.prio);
    OneText(3, h.dev);
    OneNest(4, if h.dev.None? && h.devices.Some? then Some(DeviceAttrs(h.devices.value)) else None);
  }

  lemma {:induction false} DeviceWire(names: seq<CString>, i: nat)
    requires i < |names|
    ensures |DeviceAttrs(names)| == |names| && DeviceAttrs(names)[i] == Attr(1, names[i] + [0])
  {
    var n := |names| - 1;
    if n > 0 {
      DeviceWire(names[..n], if i < n then i else 0);
    }
  }
}
