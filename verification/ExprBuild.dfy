/** The builders of expressions: they write attributes straight into the message,
    with nests that are open while their content is written and get their length
    afterwards.  Each is proved to append the encoding of the field list that
    module Exprs gives for the expression. */
module ExprBuild {
  import opened Wrappers
  import opened Bytes
  import opened Netlink
  import opened Messages
  import opened Exprs

  /** Every string inside an expression fits, at any depth. */
  ghost predicate TextsFit(e: Expr)
    decreases e, 0
  {
    && (e.Immediate? && e.chain.Some? ==> |e.chain.value| + 5 <= 0xFFFF)
    && (e.Lookup? && e.setName.Some? ==> |e.setName.value| + 5 <= 0xFFFF)
    && (e.Dynset? && e.setName.Some? ==> |e.setName.value| + 5 <= 0xFFFF)
    && (e.Dynset? ==> AllTextsFit(e.exprs))
  }

  ghost predicate AllTextsFit(es: seq<Expr>)
    decreases es
  {
    forall i :: 0 <= i < |es| ==> TextsFit(es[i])
  }

  /** A builder has written the first `i` fields of `fs` behind `c0`, and there is
      room for the rest. */
  ghost predicate Building(m: Message, c0: bytes, fs: seq<Field>, i: nat)
    reads m, m.data
  {
    && i <= |fs|
    && m.Valid()
    && |c0| + |Encode(Emit(fs))| <= m.data.Length
    && m.Contents() == c0 + Encode(Emit(fs[..i]))
  }

  lemma EmitStep(fs: seq<Field>, i: nat)
    requires i < |fs|
    ensures Encode(Emit(fs[..i + 1])) == Encode(Emit(fs[..i])) + Encode(EmitOne(fs[i]))
  {
    assert fs[..i + 1][..i] == fs[..i];
    EncodeConcat(Emit(fs[..i]), EmitOne(fs[i]));
  }

  lemma {:induction false} EmitGrows(fs: seq<Field>, i: nat)
    requires i <= |fs|
    ensures |Encode(Emit(fs[..i]))| <= |Encode(Emit(fs))|
    decreases |fs| - i
  {
    if i == |fs| {
      assert fs[..i] == fs;
    } else {
      EmitStep(fs, i);
      EmitGrows(fs, i + 1);
    }
  }

  lemma BuildStep(c0: bytes, fs: seq<Field>, i: nat, c: bytes, d: bytes)
    requires i < |fs|
    requires c == c0 + Encode(Emit(fs[..i]))
    requires d == c + Encode(EmitOne(fs[i]))
    ensures d == c0 + Encode(Emit(fs[..i + 1]))
    ensures |d| <= |c0| + |Encode(Emit(fs))|
  {
    EmitStep(fs, i);
    EmitGrows(fs, i + 1);
    ConcatAssociative(c0, Encode(Emit(fs[..i])), Encode(EmitOne(fs[i])));
  }

  lemma BuildStart(c0: bytes, fs: seq<Field>)
    ensures c0 + Encode(Emit(fs[..0])) == c0
  {
  }

  /** A field whose flag bit is not set contributes nothing. */
  lemma SkipStep(m: Message, c0: bytes, fs: seq<Field>, i: nat)
    requires i < |fs| && fs[i].payload.None?
    requires Building(m, c0, fs, i)
    ensures Building(m, c0, fs, i + 1)
  {
    BuildStep(c0, fs, i, m.Contents(), m.Contents() + Encode(EmitOne(fs[i])));
  }

  lemma BuildDone(m: Message, c0: bytes, fs: seq<Field>)
    requires Building(m, c0, fs, |fs|)
    ensures m.Contents() == c0 + Encode(Emit(fs))
  {
    assert fs[..|fs|] == fs;
  }

  /** One field that is a single attribute, written when it is set. */
  method PutField(m: Message, f: Field, ghost c0: bytes, ghost fs: seq<Field>, ghost i: nat)
    requires i < |fs| && fs[i] == f && !f.nested
    requires f.payload.Some? ==> NLA_HDRLEN + |f.payload.value| <= 0xFFFF
    requires Building(m, c0, fs, i)
    modifies m`len, m.data
    ensures Building(m, c0, fs, i + 1)
  {
    ghost var c := m.Contents();
    BuildStep(c0, fs, i, c, c + Encode(EmitOne(f)));
    if f.payload.Some? {
      EncodeOne(FieldAttr(f));
      m.Put(f.typ, f.payload.value);
    }
  }

  method PutU32(m: Message, typ: nat, v: Option<u32>, ghost c0: bytes, ghost fs: seq<Field>, ghost i: nat)
    requires i < |fs| && fs[i] == FieldU32(typ, v)
    requires Building(m, c0, fs, i)
    modifies m`len, m.data
    ensures Building(m, c0, fs, i + 1)
  {
    PutField(m, FieldU32(typ, v), c0, fs, i);
  }

  method PutU64(m: Message, typ: nat, v: Option<u64>, ghost c0: bytes, ghost fs: seq<Field>, ghost i: nat)
    requires i < |fs| && fs[i] == FieldU64(typ, v)
    requires Building(m, c0, fs, i)
    modifies m`len, m.data
    ensures Building(m, c0, fs, i + 1)
  {
    PutField(m, FieldU64(typ, v), c0, fs, i);
  }

  method PutText(m: Message, typ: nat, v: Option<CString>, ghost c0: bytes, ghost fs: seq<Field>, ghost i: nat)
    requires i < |fs| && fs[i] == FieldText(typ, v)
    requires v.Some? ==> |v.value| + 5 <= 0xFFFF
    requires Building(m, c0, fs, i)
    modifies m`len, m.data
    ensures Building(m, c0, fs, i + 1)
  {
    PutField(m, FieldText(typ, v), c0, fs, i);
  }

  /** What a finished nest contributes, and the room it takes. */
  lemma NestField(typ: nat, attrs: seq<Attr>)
    ensures Encode(EmitOne(FieldNest(typ, Some(attrs)))) == AttrBytes(Nest(typ, attrs))
    ensures |AttrBytes(Nest(typ, attrs))| == NLA_HDRLEN + |Encode(attrs)|
  {
    EncodeOne(Nest(typ, attrs));
    NestIsAttr(typ, attrs);
  }

  /** One field that is a nest around a data value. */
  method PutValue(m: Message, typ: nat, v: Option<RegValue>, ghost c0: bytes, ghost fs: seq<Field>, ghost i: nat)
    requires i < |fs| && fs[i] == FieldValue(typ, v)
    requires Building(m, c0, fs, i)
    modifies m`len, m.data
    ensures Building(m, c0, fs, i + 1)
  {
    ghost var c := m.Contents();
    BuildStep(c0, fs, i, c, c + Encode(EmitOne(fs[i])));
    if v.Some? {
      NestField(typ, ValueAttrs(v.value));
      EncodeOne(Attr(NFTA_DATA_VALUE, v.value));
      var nest := m.NestStart(typ);
      OpenNestAppend(c, typ, [], m.Contents(), Encode(ValueAttrs(v.value)));
      m.Put(NFTA_DATA_VALUE, v.value);
      CloseNest(c, typ, ValueAttrs(v.value), m.Contents());
      m.NestEnd(nest);
    }
  }

  /** The verdict of an immediate or of a set element: two nests, the outer one
      closed before the inner one. */
  method PutVerdict(m: Message, typ: nat, code: u32, chain: Option<CString>, chainId: Option<u32>)
    requires chain.Some? ==> |chain.value| + 5 <= 0xFFFF
    requires m.Valid() && m.Room(|AttrBytes(Nest(typ, VerdictAttrs(code, chain, chainId)))|)
    modifies m`len, m.data
    ensures m.Valid()
    ensures m.Contents() == old(m.Contents()) + AttrBytes(Nest(typ, VerdictAttrs(code, chain, chainId)))
  {
    hide Encode, Emit;
    ghost var fs := VerdictFields(code, chain, chainId);
    ghost var c := m.Contents();
    NestField(typ, VerdictAttrs(code, chain, chainId));
    NestField(NFTA_DATA_VERDICT, Emit(fs));
    var nest1 := m.NestStart(typ);
    ghost var c1 := m.Contents();
    var nest2 := m.NestStart(NFTA_DATA_VERDICT);
    ghost var c2 := m.Contents();
    BuildStart(c2, fs);
    PutU32(m, NFTA_VERDICT_CODE, Some(code), c2, fs, 0);
    PutText(m, NFTA_VERDICT_CHAIN, chain, c2, fs, 1);
    PutU32(m, NFTA_VERDICT_CHAIN_ID, chainId, c2, fs, 2);
    BuildDone(m, c2, fs);
    OpenNestAppend(c1, NFTA_DATA_VERDICT, [], c2, Encode(Emit(fs)));
    CloseTwoNests(c, typ, NFTA_DATA_VERDICT, Emit(fs), c1, m.Contents());
    m.NestEnd(nest1);
    m.NestEnd(nest2);
  }

  method BuildImmediate(m: Message, e: Expr)
    requires e.Immediate? && TextsFit(e)
    requires m.Valid() && m.Room(|Encode(Emit(ImmediateFields(e)))|)
    modifies m`len, m.data
    ensures m.Valid() && m.Contents() == old(m.Contents()) + Encode(Emit(ImmediateFields(e)))
  {
    hide Encode, Emit;
    ghost var c0, fs := m.Contents(), ImmediateFields(e);
    BuildStart(c0, fs);
    PutU32(m, NFTA_IMMEDIATE_DREG, e.dreg, c0, fs, 0);
    if e.data.Some? {
      PutValue(m, NFTA_IMMEDIATE_DATA, e.data, c0, fs, 1);
    } else {
      ghost var c := m.Contents();
      BuildStep(c0, fs, 1, c, c + Encode(EmitOne(fs[1])));
      if e.verdict.Some? {
        NestField(NFTA_IMMEDIATE_DATA, VerdictAttrs(e.verdict.value, e.chain, e.chainId));
        PutVerdict(m, NFTA_IMMEDIATE_DATA, e.verdict.value, e.chain, e.chainId);
      } else {
        SkipStep(m, c0, fs, 1);
      }
    }
    BuildDone(m, c0, fs);
  }

  method BuildCmp(m: Message, e: Expr)
    requires e.Cmp?
    requires m.Valid() && m.Room(|Encode(Emit(CmpFields(e)))|)
    modifies m`len, m.data
    ensures m.Valid() && m.Contents() == old(m.Contents()) + Encode(Emit(CmpFields(e)))
  {
    hide Encode, Emit;
    ghost var c0, fs := m.Contents(), CmpFields(e);
    BuildStart(c0, fs);
    PutU32(m, NFTA_CMP_SREG, e.sreg, c0, fs, 0);
    PutU32(m, NFTA_CMP_OP, e.op, c0, fs, 1);
    PutValue(m, NFTA_CMP_DATA, e.data, c0, fs, 2);
    BuildDone(m, c0, fs);
  }

  method BuildLookup(m: Message, e: Expr)
    requires e.Lookup? && TextsFit(e)
    requires m.Valid() && m.Room(|Encode(Emit(LookupFields(e)))|)
    modifies m`len, m.data
    ensures m.Valid() && m.Contents() == old(m.Contents()) + Encode(Emit(LookupFields(e)))
  {
    hide Encode, Emit;
    ghost var c0, fs := m.Contents(), LookupFields(e);
    BuildStart(c0, fs);
    PutU32(m, NFTA_LOOKUP_SREG, e.sreg, c0, fs, 0);
    PutU32(m, NFTA_LOOKUP_DREG, e.dreg, c0, fs, 1);
    PutText(m, NFTA_LOOKUP_SET, e.setName, c0, fs, 2);
    PutU32(m, NFTA_LOOKUP_SET_ID, e.setId, c0, fs, 3);
    PutU32(m, NFTA_LOOKUP_FLAGS, e.lookupFlags, c0, fs, 4);
    BuildDone(m, c0, fs);
  }

  method BuildBitwise(m: Message, e: Expr)
    requires e.Bitwise?
    requires m.Valid() && m.Room(|Encode(Emit(BitwiseFields(e)))|)
    modifies m`len, m.data
    ensures m.Valid() && m.Contents() == old(m.Contents()) + Encode(Emit(BitwiseFields(e)))
  {
    hide Encode, Emit;
    ghost var c0, fs := m.Contents(), BitwiseFields(e);
    BuildStart(c0, fs);
    PutU32(m, NFTA_BITWISE_SREG, e.sreg, c0, fs, 0);
    PutU32(m, NFTA_BITWISE_DREG, e.dreg, c0, fs, 1);
    PutU32(m, NFTA_BITWISE_OP, e.op, c0, fs, 2);
    PutU32(m, NFTA_BITWISE_LEN, e.len, c0, fs, 3);
    PutValue(m, NFTA_BITWISE_MASK, e.mask, c0, fs, 4);
    PutValue(m, NFTA_BITWISE_XOR, e.xor, c0, fs, 5);
    PutValue(m, NFTA_BITWISE_DATA, e.data, c0, fs, 6);
    BuildDone(m, c0, fs);
  }

  lemma ListAttrsStep(es: seq<Expr>, i: nat)
    requires i < |es|
    ensures Encode(ListAttrs(es[i..]))
         == AttrBytes(Nest(NFTA_LIST_ELEM, ExprAttrs(es[i]))) + Encode(ListAttrs(es[i + 1..]))
  {
    assert es[i..][1..] == es[i + 1..];
    assert ListAttrs(es[i..])[1..] == ListAttrs(es[i + 1..]);
  }

  /** The loop over an expression list, each expression in a nest of its own. */
  method BuildList(m: Message, es: seq<Expr>)
    requires AllTextsFit(es)
    requires m.Valid() && m.Room(|Encode(ListAttrs(es))|)
    modifies m`len, m.data
    ensures m.Valid() && m.Contents() == old(m.Contents()) + Encode(ListAttrs(es))
    decreases es, 0
  {
    hide AttrBytes, ExprAttrs;
    ghost var c0 := m.Contents();
    ghost var done: bytes := [];
    assert es[0..] == es;
    for i := 0 to |es|
      invariant m.Valid() && m.Contents() == c0 + done
      invariant done + Encode(ListAttrs(es[i..])) == Encode(ListAttrs(es))
      invariant |c0| + |Encode(ListAttrs(es))| <= m.data.Length
    {
      ghost var c, attrs := m.Contents(), ExprAttrs(es[i]);
      ListAttrsStep(es, i);
      NestField(NFTA_LIST_ELEM, attrs);
      var nest := m.NestStart(NFTA_LIST_ELEM);
      OpenNestAppend(c, NFTA_LIST_ELEM, [], m.Contents(), Encode(attrs));
      BuildExpr(m, es[i]);
      CloseNest(c, NFTA_LIST_ELEM, attrs, m.Contents());
      m.NestEnd(nest);
      ghost var piece := AttrBytes(Nest(NFTA_LIST_ELEM, attrs));
      ConcatAssociative(c0, done, piece);
      ConcatAssociative(done, piece, Encode(ListAttrs(es[i + 1..])));
      done := done + piece;
    }
    assert done + [] == done;
  }

  /** An expression list (of a dynset or of a set element): a bare expression when it is the only one. */
  method BuildBareExpr(m: Message, typ: nat, es: seq<Expr>, ghost c0: bytes, ghost fs: seq<Field>, ghost i: nat)
    requires AllTextsFit(es)
    requires i < |fs|
    requires fs[i] == FieldNest(typ, if |es| == 1 then Some(ExprAttrs(es[0])) else None)
    requires Building(m, c0, fs, i)
    modifies m`len, m.data
    ensures Building(m, c0, fs, i + 1)
    decreases es, 1
  {
    hide Encode, Emit;
    ghost var c := m.Contents();
    BuildStep(c0, fs, i, c, c + Encode(EmitOne(fs[i])));
    if |es| == 1 {
      ghost var attrs := ExprAttrs(es[0]);
      NestField(typ, attrs);
      var nest := m.NestStart(typ);
      OpenNestAppend(c, typ, [], m.Contents(), Encode(attrs));
      BuildExpr(m, es[0]);
      CloseNest(c, typ, attrs, m.Contents());
      m.NestEnd(nest);
    } else {
      SkipStep(m, c0, fs, i);
    }
  }

  /** An expression list (of a dynset or of a set element): a list nest when there are several. */
  method BuildExprList(m: Message, typ: nat, es: seq<Expr>, ghost c0: bytes, ghost fs: seq<Field>, ghost i: nat)
    requires AllTextsFit(es)
    requires i < |fs|
    requires fs[i] == FieldNest(typ, if |es| > 1 then Some(ListAttrs(es)) else None)
    requires Building(m, c0, fs, i)
    modifies m`len, m.data
    ensures Building(m, c0, fs, i + 1)
    decreases es, 1
  {
    hide Encode, Emit;
    ghost var c := m.Contents();
    BuildStep(c0, fs, i, c, c + Encode(EmitOne(fs[i])));
    if |es| > 1 {
      ghost var attrs := ListAttrs(es);
      NestField(typ, attrs);
      var nest := m.NestStart(typ);
      OpenNestAppend(c, typ, [], m.Contents(), Encode(attrs));
      BuildList(m, es);
      CloseNest(c, typ, attrs, m.Contents());
      m.NestEnd(nest);
    } else {
      SkipStep(m, c0, fs, i);
    }
  }

  method BuildDynsetRegisters(m: Message, e: Expr, ghost c0: bytes, ghost fs: seq<Field>)
    requires e.Dynset?
    requires |fs| >= 3
    requires fs[0] == FieldU32(NFTA_DYNSET_SREG_KEY, e.sregKey)
    requires fs[1] == FieldU32(NFTA_DYNSET_SREG_DATA, e.sregData)
    requires fs[2] == FieldU32(NFTA_DYNSET_OP, e.op)
    requires Building(m, c0, fs, 0)
    modifies m`len, m.data
    ensures Building(m, c0, fs, 3)
  {
    hide Encode, Emit;
    PutU32(m, NFTA_DYNSET_SREG_KEY, e.sregKey, c0, fs, 0);
    PutU32(m, NFTA_DYNSET_SREG_DATA, e.sregData, c0, fs, 1);
    PutU32(m, NFTA_DYNSET_OP, e.op, c0, fs, 2);
  }

  method BuildDynsetSet(m: Message, e: Expr, ghost c0: bytes, ghost fs: seq<Field>)
    requires e.Dynset? && (e.setName.Some? ==> |e.setName.value| + 5 <= 0xFFFF)
    requires |fs| >= 6
    requires fs[3] == FieldU64(NFTA_DYNSET_TIMEOUT, e.timeout)
    requires fs[4] == FieldText(NFTA_DYNSET_SET_NAME, e.setName)
    requires fs[5] == FieldU32(NFTA_DYNSET_SET_ID, e.setId)
    requires Building(m, c0, fs, 3)
    modifies m`len, m.data
    ensures Building(m, c0, fs, 6)
  {
    hide Encode, Emit;
    PutU64(m, NFTA_DYNSET_TIMEOUT, e.timeout, c0, fs, 3);
    PutText(m, NFTA_DYNSET_SET_NAME, e.setName, c0, fs, 4);
    PutU32(m, NFTA_DYNSET_SET_ID, e.setId, c0, fs, 5);
  }

  lemma DynsetFields(e: Expr, fs: seq<Field>)
    requires e.Dynset? && fs == DataFields(e)
    ensures |fs| == 9
    ensures fs[0] == FieldU32(NFTA_DYNSET_SREG_KEY, e.sregKey)
    ensures fs[1] == FieldU32(NFTA_DYNSET_SREG_DATA, e.sregData)
    ensures fs[2] == FieldU32(NFTA_DYNSET_OP, e.op)
    ensures fs[3] == FieldU64(NFTA_DYNSET_TIMEOUT, e.timeout)
    ensures fs[4] == FieldText(NFTA_DYNSET_SET_NAME, e.setName)
    ensures fs[5] == FieldU32(NFTA_DYNSET_SET_ID, e.setId)
    ensures fs[6] == FieldNest(NFTA_DYNSET_EXPR,
                       if |e.exprs| == 1 then Some(ExprAttrs(e.exprs[0])) else None)
    ensures fs[7] == FieldNest(NFTA_DYNSET_EXPRESSIONS,
                       if |e.exprs| > 1 then Some(ListAttrs(e.exprs)) else None)
    ensures fs[8] == FieldU32(NFTA_DYNSET_FLAGS, e.dynsetFlags)
  {
  }

  method BuildDynset(m: Message, e: Expr)
    requires e.Dynset? && TextsFit(e)
    requires m.Valid() && m.Room(|Encode(Emit(DataFields(e)))|)
    modifies m`len, m.data
    ensures m.Valid() && m.Contents() == old(m.Contents()) + Encode(Emit(DataFields(e)))
    decreases e, 1
  {
    hide Encode, Emit;
    ghost var c0, fs := m.Contents(), DataFields(e);
    BuildStart(c0, fs);
    DynsetFields(e, fs);
    BuildDynsetRegisters(m, e, c0, fs);
    BuildDynsetSet(m, e, c0, fs);
    BuildBareExpr(m, NFTA_DYNSET_EXPR, e.exprs, c0, fs, 6);
    BuildExprList(m, NFTA_DYNSET_EXPRESSIONS, e.exprs, c0, fs, 7);
    PutU32(m, NFTA_DYNSET_FLAGS, e.dynsetFlags, c0, fs, 8);
    BuildDone(m, c0, fs);
  }

  /** The `build` operation of the expression. */
  method BuildData(m: Message, e: Expr)
    requires !e.Notrack? && TextsFit(e)
    requires m.Valid() && m.Room(|Encode(Emit(DataFields(e)))|)
    modifies m`len, m.data
    ensures m.Valid() && m.Contents() == old(m.Contents()) + Encode(Emit(DataFields(e)))
    decreases e, 2
  {
    match e
    case Immediate(_, _, _, _, _) => BuildImmediate(m, e);
    case Cmp(_, _, _) => BuildCmp(m, e);
    case Lookup(_, _, _, _, _) => BuildLookup(m, e);
    case Bitwise(_, _, _, _, _, _, _) => BuildBitwise(m, e);
    case Dynset(_, _, _, _, _, _, _, _) => BuildDynset(m, e);
  }

  /** nftnl_expr_build_payload */
  method BuildExpr(m: Message, e: Expr)
    requires TextsFit(e)
    requires m.Valid() && m.Room(|Encode(ExprAttrs(e))|)
    modifies m`len, m.data
    ensures m.Valid() && m.Contents() == old(m.Contents()) + Encode(ExprAttrs(e))
    decreases e, 4
  {
    hide Encode, Emit;
    ghost var c0, fs := m.Contents(), ExprFields(e);
    BuildStart(c0, fs);
    PutText(m, NFTA_EXPR_NAME, Some(OpsName(OpsOf(e))), c0, fs, 0);
    if !e.Notrack? {
      BuildDataNest(m, e, c0, fs);
    } else {
      SkipStep(m, c0, fs, 1);
    }
    BuildDone(m, c0, fs);
  }

  method BuildDataNest(m: Message, e: Expr, ghost c0: bytes, ghost fs: seq<Field>)
    requires !e.Notrack? && TextsFit(e) && fs == ExprFields(e)
    requires Building(m, c0, fs, 1)
    modifies m`len, m.data
    ensures Building(m, c0, fs, 2)
    decreases e, 3
  {
    hide Encode, Emit;
    ghost var c, attrs := m.Contents(), Emit(DataFields(e));
    BuildStep(c0, fs, 1, c, c + Encode(EmitOne(fs[1])));
    NestField(NFTA_EXPR_DATA, attrs);
    var nest := m.NestStart(NFTA_EXPR_DATA);
    OpenNestAppend(c, NFTA_EXPR_DATA, [], m.Contents(), Encode(attrs));
    BuildData(m, e);
    CloseNest(c, NFTA_EXPR_DATA, attrs, m.Contents());
    m.NestEnd(nest);
  }
}
