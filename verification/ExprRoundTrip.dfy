/** What parsing makes of a built expression.  `Norm` says it outright, for every
    expression: which attributes come back, which are dropped, and when the parser
    refuses.  `Canonical` is the condition under which nothing is lost. */
module ExprRoundTrip {
  import opened Wrappers
  import opened Bytes
  import opened Netlink
  import opened Exprs

  function NormImmediate(e: Expr): Outcome<Expr>
    requires e.Immediate?
  {
    if e.data.Some? then
      if |e.data.value| == 0 then Rejected else Ok(Immediate(e.dreg, e.data, None, None, None))
    else if e.verdict.None? then Ok(Immediate(e.dreg, None, None, None, None))
    else if PlainVerdict(e.verdict.value) then Ok(Immediate(e.dreg, None, e.verdict, None, None))
    else if JumpVerdict(e.verdict.value) && e.chain.Some? then
      Ok(Immediate(e.dreg, None, e.verdict, e.chain, None))
    else Rejected
  }

  /** The register whose return value decides about a bitwise expression. */
  function LastRegister(e: Expr): Option<RegValue>
    requires e.Bitwise?
  {
    if e.data.Some? then e.data else if e.xor.Some? then e.xor else e.mask
  }

  function Norm(e: Expr): Outcome<Expr>
    decreases e, 1
  {
    match e
    case Immediate(_, _, _, _, _) => NormImmediate(e)
    case Cmp(_, _, data) => if data == Some([]) then Rejected else Ok(e)
    case Lookup(_, _, _, _, _) => Ok(e)
    case Bitwise(_, _, _, _, _, _, _) => if LastRegister(e) == Some([]) then Rejected else Ok(e)
    case Dynset(sregKey, sregData, op, timeout, setName, setId, exprs, flags) =>
      var normed :- NormAll(exprs);
      Ok(Dynset(sregKey, sregData, op, timeout, setName, setId, normed, flags))
    case Notrack => Ok(e)
  }

  function NormAll(es: seq<Expr>): (r: Outcome<seq<Expr>>)
    ensures r.Ok? ==> |r.value| == |es|
    decreases es, 0
  {
    if es == [] then Ok([])
    else
      var e :- Norm(es[0]);
      var rest :- NormAll(es[1..]);
      Ok([e] + rest)
  }

  /** Expressions the encoding can carry: at most one of value and verdict, no
      chain id, a known verdict, a chain name exactly with jump and goto, and a
      value of at least one byte where the parser looks at the result. */
  predicate Canonical(e: Expr)
    decreases e, 1
  {
    match e
    case Immediate(_, data, verdict, chain, chainId) =>
      chainId.None?
      && (if data.Some? then |data.value| > 0 && verdict.None? && chain.None?
          else if verdict.None? then chain.None?
          else if chain.Some? then JumpVerdict(verdict.value)
          else PlainVerdict(verdict.value))
    case Cmp(_, _, data) => data != Some([])
    case Lookup(_, _, _, _, _) => true
    case Bitwise(_, _, _, _, _, _, _) => LastRegister(e) != Some([])
    case Dynset(_, _, _, _, _, _, exprs, _) => AllCanonical(exprs)
    case Notrack => true
  }

  predicate AllCanonical(es: seq<Expr>)
    decreases es, 0
  {
    es == [] || (Canonical(es[0]) && AllCanonical(es[1..]))
  }

  /** A verdict the parser knows: a jump or goto needs its chain. */
  predicate AcceptedVerdict(code: u32, chain: Option<CString>) {
    PlainVerdict(code) || (JumpVerdict(code) && chain.Some?)
  }

  /** Expressions whose built form the parser accepts. */
  predicate Accepted(e: Expr)
    decreases e, 1
  {
    match e
    case Immediate(_, data, verdict, chain, _) =>
      if data.Some? then data != Some([]) else verdict.Some? ==> AcceptedVerdict(verdict.value, chain)
    case Cmp(_, _, data) => data != Some([])
    case Lookup(_, _, _, _, _) => true
    case Bitwise(_, _, _, _, _, _, _) => LastRegister(e) != Some([])
    case Dynset(_, _, _, _, _, _, exprs, _) => AllAccepted(exprs)
    case Notrack => true
  }

  predicate AllAccepted(es: seq<Expr>)
    decreases es, 0
  {
    es == [] || (Accepted(es[0]) && AllAccepted(es[1..]))
  }

  /** Every expression has a normal form or is rejected: nothing that was built makes
      the parser abort or leave defined behaviour. */
  lemma {:induction false} NormOrRejected(e: Expr)
    ensures if Accepted(e) then Norm(e).Ok? else Norm(e) == Rejected
    decreases e, 1
  {
    if e.Dynset? {
      NormAllOrRejected(e.exprs);
    }
  }

  lemma {:induction false} NormAllOrRejected(es: seq<Expr>)
    ensures if AllAccepted(es) then NormAll(es).Ok? else NormAll(es) == Rejected
    decreases es, 0
  {
    if es != [] {
      NormOrRejected(es[0]);
      NormAllOrRejected(es[1..]);
    }
  }

  lemma {:induction false} NormIsIdentity(e: Expr)
    ensures Norm(e) == Ok(e) <==> Canonical(e)
    decreases e, 1
  {
    if e.Dynset? {
      NormAllIsIdentity(e.exprs);
    }
  }

  lemma {:induction false} NormAllIsIdentity(es: seq<Expr>)
    ensures NormAll(es) == Ok(es) <==> AllCanonical(es)
    decreases es, 0
  {
    if es != [] {
      NormIsIdentity(es[0]);
      NormAllIsIdentity(es[1..]);
      var first, rest := Norm(es[0]), NormAll(es[1..]);
      if first.Ok? && rest.Ok? {
        var all := [first.value] + rest.value;
        assert all[0] == first.value && all[1..] == rest.value;
        assert es == [es[0]] + es[1..];
      }
    }
  }

  // ---------- data registers ----------

  /** A normal form is canonical: one round trip reaches a fixed point. */
  lemma {:induction false} NormIsCanonical(e: Expr)
    ensures Norm(e).Ok? ==> Canonical(Norm(e).value)
    decreases e, 1
  {
    if e.Dynset? {
      NormAllIsCanonical(e.exprs);
    }
  }

  lemma {:induction false} NormAllIsCanonical(es: seq<Expr>)
    ensures NormAll(es).Ok? ==> AllCanonical(NormAll(es).value)
    decreases es, 0
  {
    if es != [] {
      NormIsCanonical(es[0]);
      NormAllIsCanonical(es[1..]);
      if NormAll(es).Ok? {
        assert NormAll(es).value[1..] == NormAll(es[1..]).value;
      }
    }
  }

  function ValueResult(v: RegValue): DataParse {
    DataParse(|v| > 0, Some(v), Some(DataValue), 0, None)
  }

  /** The fields of a data register: one of its two attributes. */
  function RegisterFields(v: Option<RegValue>, verdict: Option<seq<Attr>>): seq<Field> {
    [ FieldBytes(NFTA_DATA_VALUE, v), FieldNest(NFTA_DATA_VERDICT, verdict) ]
  }

  lemma EmitData(v: Option<RegValue>, verdict: Option<seq<Attr>>)
    ensures Emit(RegisterFields(v, verdict))
         == (if v.Some? then ValueAttrs(v.value) else [])
          + (if verdict.Some? then [Attr(NestType(NFTA_DATA_VERDICT), Encode(verdict.value))] else [])
  {
    var fs := RegisterFields(v, verdict);
    assert fs[..1][..0] == [];
    assert Emit(fs[..1]) == Emit([]) + EmitOne(fs[0]);
  }

  lemma ParseDataValue(v: RegValue)
    ensures ParseData(Encode(ValueAttrs(v))) == Ok(ValueResult(v))
  {
    var fs := RegisterFields(Some(v), None);
    EmitData(Some(v), None);
    assert Emit(fs) == ValueAttrs(v);
    TableOfFields(fs, DATA_POLICY);
    var t := ParseTable(Encode(ValueAttrs(v)), DATA_POLICY).value;
    assert Get(t, fs[0].typ) == Some(v);
    assert Get(t, fs[1].typ) == None;
  }

  /** The result for a built verdict: the chain name counts only with jump and
      goto, and those two need it. */
  function VerdictResult(code: u32, chain: Option<CString>): DataParse {
    if PlainVerdict(code) then DataParse(true, Some(LE32(code)), Some(DataVerdict), code, None)
    else if JumpVerdict(code) && chain.Some? then
      DataParse(true, Some([]), Some(DataChain), code, chain)
    else DataParse(false, Some([]), None, code, None)
  }

  lemma VerdictTable(code: u32, chain: Option<CString>, chainId: Option<u32>)
    requires |Encode(Emit(VerdictFields(code, chain, chainId)))| <= 0xFFFF
    ensures var r := ParseTable(Encode(Emit(VerdictFields(code, chain, chainId))), VERDICT_POLICY);
            && r.Ok?
            && GetU32(VERDICT_POLICY, r.value, NFTA_VERDICT_CODE) == Some(code)
            && GetText(r.value, NFTA_VERDICT_CHAIN) == chain
  {
    hide Encode, Walk;
    var fs := VerdictFields(code, chain, chainId);
    FitsInside(Emit(fs));
    TableOfFields(fs, VERDICT_POLICY);
    var t := ParseTable(Encode(Emit(fs)), VERDICT_POLICY).value;
    assert Get(t, fs[0].typ) == fs[0].payload;
    assert Get(t, fs[1].typ) == fs[1].payload;
    ReadU32(VERDICT_POLICY, t, NFTA_VERDICT_CODE, Some(code));
    ReadText(t, NFTA_VERDICT_CHAIN, chain);
  }

  lemma ParseVerdictFields(code: u32, chain: Option<CString>, chainId: Option<u32>)
    requires |Encode(Emit(VerdictFields(code, chain, chainId)))| <= 0xFFFF
    ensures ParseVerdict([], None, Encode(Emit(VerdictFields(code, chain, chainId))))
         == Ok(VerdictResult(code, chain))
  {
    hide Encode, Emit, ParseTable;
    VerdictTable(code, chain, chainId);
    assert Overlay([], code) == [];
  }

  lemma ParseDataVerdict(code: u32, chain: Option<CString>, chainId: Option<u32>)
    requires |Encode(VerdictAttrs(code, chain, chainId))| <= 0xFFFF
    ensures ParseData(Encode(VerdictAttrs(code, chain, chainId))) == Ok(VerdictResult(code, chain))
  {
    hide Encode, Walk;
    var inner := Emit(VerdictFields(code, chain, chainId));
    var fs := RegisterFields(None, Some(inner));
    EmitData(None, Some(inner));
    assert Emit(fs) == VerdictAttrs(code, chain, chainId);
    FitsInside(Emit(fs));
    TableNested(inner);
    TableOfFields(fs, DATA_POLICY);
    var t := ParseTable(Encode(Emit(fs)), DATA_POLICY).value;
    assert Get(t, fs[0].typ) == None;
    assert Get(t, fs[1].typ) == Some(Encode(inner));
    EncodeMember(Emit(fs), Attr(NestType(NFTA_DATA_VERDICT), Encode(inner)));
    ParseVerdictFields(code, chain, chainId);
  }

  /** The verdicts that come back, by their codes in the headers of the kernel: 0 drop,
      1 accept, 3 queue, -1 continue, -2 break and -5 return, and with a chain -3 jump and
      -4 goto; any other code is refused. */
  lemma KnownVerdicts(code: u32, chain: Option<CString>)
    requires |Encode(VerdictAttrs(code, chain, None))| <= 0xFFFF
    ensures var jumps := code in {0xFFFF_FFFD, 0xFFFF_FFFC};
      var r := ParseData(Encode(VerdictAttrs(code, chain, None)));
      && r.Ok?
      && (r.value.ok <==> code in {0, 1, 3, 0xFFFF_FFFF, 0xFFFF_FFFE, 0xFFFF_FFFB} || (jumps && chain.Some?))
      && (r.value.ok ==> r.value.verdict == code)
      && (r.value.ok ==> r.value.kind == Some(if jumps then DataChain else DataVerdict))
      && (r.value.ok ==> r.value.chain == if jumps then chain else None)
  {
    hide Encode, VerdictAttrs, ParseData;
    ParseDataVerdict(code, chain, None);
  }

  // ---------- the expressions without inner expressions ----------

  lemma ParseBuiltImmediate(e: Expr)
    requires e.Immediate? && |Encode(Emit(ImmediateFields(e)))| <= 0xFFFF
    ensures ParseImmediate(Encode(Emit(ImmediateFields(e)))) == Norm(e)
  {
    hide Encode, Walk;
    var fs := ImmediateFields(e);
    FitsInside(Emit(fs));
    TableOfFields(fs, IMMEDIATE_POLICY);
    var t := ParseTable(Encode(Emit(fs)), IMMEDIATE_POLICY).value;
    assert Get(t, fs[0].typ) == fs[0].payload;
    assert Get(t, fs[1].typ) == fs[1].payload;
    if fs[1].payload.Some? {
      FieldInside(fs, 1);
    }
    BuiltImmediate(e, t);
  }

  lemma BuiltImmediate(e: Expr, t: Table)
    requires e.Immediate? && Checked(t, IMMEDIATE_POLICY)
    requires Get(t, NFTA_IMMEDIATE_DREG) == ImmediateFields(e)[0].payload
    requires Get(t, NFTA_IMMEDIATE_DATA) == ImmediateFields(e)[1].payload
    requires NFTA_IMMEDIATE_DATA in t ==> |t[NFTA_IMMEDIATE_DATA]| <= 0xFFFF
    ensures ImmediateOf(t) == Norm(e)
  {
    hide Encode, Walk;
    ReadU32(IMMEDIATE_POLICY, t, NFTA_IMMEDIATE_DREG, e.dreg);
    if e.data.Some? {
      ParseDataValue(e.data.value);
    } else if e.verdict.Some? {
      ParseDataVerdict(e.verdict.value, e.chain, e.chainId);
    }
  }

  lemma ParseBuiltCmp(e: Expr)
    requires e.Cmp? && |Encode(Emit(CmpFields(e)))| <= 0xFFFF
    ensures ParseCmp(Encode(Emit(CmpFields(e)))) == Norm(e)
  {
    hide Encode, Walk;
    var fs := CmpFields(e);
    FitsInside(Emit(fs));
    TableOfFields(fs, CMP_POLICY);
    var t := ParseTable(Encode(Emit(fs)), CMP_POLICY).value;
    assert Get(t, fs[0].typ) == fs[0].payload;
    assert Get(t, fs[1].typ) == fs[1].payload;
    assert Get(t, fs[2].typ) == fs[2].payload;
    ReadU32(CMP_POLICY, t, NFTA_CMP_SREG, e.sreg);
    ReadU32(CMP_POLICY, t, NFTA_CMP_OP, e.op);
    if e.data.Some? {
      ParseDataValue(e.data.value);
    }
  }

  lemma ParseBuiltLookup(e: Expr)
    requires e.Lookup? && |Encode(Emit(LookupFields(e)))| <= 0xFFFF
    ensures ParseLookup(Encode(Emit(LookupFields(e)))) == Norm(e)
  {
    hide Encode, Walk;
    var fs := LookupFields(e);
    FitsInside(Emit(fs));
    TableOfFields(fs, LOOKUP_POLICY);
    var t := ParseTable(Encode(Emit(fs)), LOOKUP_POLICY).value;
    assert Get(t, fs[0].typ) == fs[0].payload;
    assert Get(t, fs[1].typ) == fs[1].payload;
    assert Get(t, fs[2].typ) == fs[2].payload;
    assert Get(t, fs[3].typ) == fs[3].payload;
    assert Get(t, fs[4].typ) == fs[4].payload;
    ReadU32(LOOKUP_POLICY, t, NFTA_LOOKUP_SREG, e.sreg);
    ReadU32(LOOKUP_POLICY, t, NFTA_LOOKUP_DREG, e.dreg);
    ReadText(t, NFTA_LOOKUP_SET, e.setName);
    ReadU32(LOOKUP_POLICY, t, NFTA_LOOKUP_SET_ID, e.setId);
    ReadU32(LOOKUP_POLICY, t, NFTA_LOOKUP_FLAGS, e.lookupFlags);
  }

  lemma ParseBuiltRegister(t: Table, typ: nat, v: Option<RegValue>)
    requires Get(t, typ) == FieldValue(typ, v).payload
    ensures ParseRegister(t, typ) == Ok(if v.Some? then Some(ValueResult(v.value)) else None)
  {
    if v.Some? {
      ParseDataValue(v.value);
    }
  }

  lemma ParseBuiltBitwise(e: Expr)
    requires e.Bitwise? && |Encode(Emit(BitwiseFields(e)))| <= 0xFFFF
    ensures ParseBitwise(Encode(Emit(BitwiseFields(e)))) == Norm(e)
  {
    hide Encode, Walk;
    var fs := BitwiseFields(e);
    FitsInside(Emit(fs));
    TableOfFields(fs, BITWISE_POLICY);
    BuiltBitwise(e, ParseTable(Encode(Emit(fs)), BITWISE_POLICY).value);
  }

  lemma BuiltBitwise(e: Expr, t: Table)
    requires e.Bitwise? && Checked(t, BITWISE_POLICY)
    requires forall i :: 0 <= i < 7 ==> Get(t, BitwiseFields(e)[i].typ) == BitwiseFields(e)[i].payload
    ensures BitwiseOf(t) == Norm(e)
  {
    hide Encode, Emit, ParseData, ParseRegister, GetU32;
    var fs := BitwiseFields(e);
    assert Get(t, fs[0].typ) == fs[0].payload;
    ReadU32(BITWISE_POLICY, t, NFTA_BITWISE_SREG, e.sreg);
    assert Get(t, fs[1].typ) == fs[1].payload;
    ReadU32(BITWISE_POLICY, t, NFTA_BITWISE_DREG, e.dreg);
    assert Get(t, fs[2].typ) == fs[2].payload;
    ReadU32(BITWISE_POLICY, t, NFTA_BITWISE_OP, e.op);
    assert Get(t, fs[3].typ) == fs[3].payload;
    ReadU32(BITWISE_POLICY, t, NFTA_BITWISE_LEN, e.len);
    assert Get(t, fs[4].typ) == fs[4].payload;
    ParseBuiltRegister(t, NFTA_BITWISE_MASK, e.mask);
    assert Get(t, fs[5].typ) == fs[5].payload;
    ParseBuiltRegister(t, NFTA_BITWISE_XOR, e.xor);
    assert Get(t, fs[6].typ) == fs[6].payload;
    ParseBuiltRegister(t, NFTA_BITWISE_DATA, e.data);
  }

  // ---------- expressions that hold expressions ----------

  lemma ParseListCons(attrs: seq<Attr>, a: Attr, rest: seq<Attr>, bound: nat)
    requires attrs == [a] + rest && TypeOf(a) == NFTA_LIST_ELEM
    requires forall x <- attrs :: |x.payload| < bound
    ensures forall x <- rest :: |x.payload| < bound
    ensures ParseList(attrs, bound).All() == Prepend(ParseExpr(a.payload), ParseList(rest, bound).All())
  {
    forall x <- rest ensures |x.payload| < bound {
      assert x in attrs;
    }
    assert attrs[1..] == rest;
  }

  function Prepend(e: Outcome<Expr>, rest: Outcome<seq<Expr>>): Outcome<seq<Expr>> {
    if !e.Ok? then e.PropagateFailure()
    else if !rest.Ok? then rest else Ok([e.value] + rest.value)
  }

  /** A list nest parses to the normal forms of its expressions, in order, or
      ends the way the first of them that does not parse ends. */
  lemma {:induction false} ParseBuiltList(es: seq<Expr>, attrs: seq<Attr>, bound: nat)
    requires attrs == ListAttrs(es) && |Encode(attrs)| <= 0xFFFF
    requires forall a <- attrs :: |a.payload| < bound
    ensures ParseList(attrs, bound).All() == NormAll(es)
    decreases es, 0
  {
    if es != [] {
      var first := Attr(NestType(NFTA_LIST_ELEM), Encode(ExprAttrs(es[0])));
      var rest := ListAttrs(es[1..]);
      EncodeMember(attrs, first);
      ParseListCons(attrs, first, rest, bound);
      ParseBuiltExpr(es[0]);
      EncodeConcat([first], rest);
      ParseBuiltList(es[1..], rest, bound);
      NormAllCons(es);
    }
  }

  lemma NormAllCons(es: seq<Expr>)
    requires es != []
    ensures NormAll(es) == Prepend(Norm(es[0]), NormAll(es[1..]))
  {
  }

  lemma BareExpr(t: Table, bound: nat, b: bytes)
    requires forall k <- t :: |t[k]| < bound
    requires NFTA_DYNSET_EXPR in t && t[NFTA_DYNSET_EXPR] == b
    ensures ParseDynsetExprs(t, bound) == Prepend(ParseExpr(b), Ok([]))
  {
    assert forall x: Expr :: [x] + [] == [x];
  }

  lemma NestedExprs(t: Table, bound: nat, b: bytes)
    requires forall k <- t :: |t[k]| < bound
    requires NFTA_DYNSET_EXPR !in t
    requires NFTA_DYNSET_EXPRESSIONS in t && t[NFTA_DYNSET_EXPRESSIONS] == b
    requires forall a <- Walk(b) :: |a.payload| < |b|
    ensures ParseDynsetExprs(t, bound) == ParseList(Walk(b), |b|).All()
  {
  }

  lemma ParseBuiltDynsetExprs(es: seq<Expr>, t: Table, bound: nat)
    requires forall k <- t :: |t[k]| < bound <= 0xFFFF
    requires Get(t, NFTA_DYNSET_EXPR) == (if |es| == 1 then Some(Encode(ExprAttrs(es[0]))) else None)
    requires Get(t, NFTA_DYNSET_EXPRESSIONS) == (if |es| > 1 then Some(Encode(ListAttrs(es))) else None)
    ensures ParseDynsetExprs(t, bound) == NormAll(es)
    decreases es, 2
  {
    if |es| == 1 {
      BareExpr(t, bound, t[NFTA_DYNSET_EXPR]);
      ParseBuiltExpr(es[0]);
      NormAllCons(es);
    } else if |es| > 1 {
      NestedExprsBuilt(es, t, bound);
    }
  }

  lemma NestedExprsBuilt(es: seq<Expr>, t: Table, bound: nat)
    requires forall k <- t :: |t[k]| < bound <= 0xFFFF
    requires NFTA_DYNSET_EXPR !in t
    requires NFTA_DYNSET_EXPRESSIONS in t && t[NFTA_DYNSET_EXPRESSIONS] == Encode(ListAttrs(es))
    ensures ParseDynsetExprs(t, bound) == NormAll(es)
    decreases es, 1
  {
    var nest := t[NFTA_DYNSET_EXPRESSIONS];
    var attrs := ListAttrs(es);
    FitsInside(attrs);
    WalkEncode(attrs);
    WalkShorter(nest);
    NestedExprs(t, bound, nest);
    ParseBuiltList(es, attrs, |nest|);
  }

  lemma ParseBuiltDynset(e: Expr)
    requires e.Dynset? && |Encode(Emit(DataFields(e)))| <= 0xFFFF
    ensures ParseDynset(Encode(Emit(DataFields(e)))) == Norm(e)
    decreases e, 2
  {
    hide Encode, Walk;
    var fs := DataFields(e);
    var b := Encode(Emit(fs));
    FitsInside(Emit(fs));
    DynsetConforms(e);
    TableOfFields(fs, DYNSET_POLICY);
    var t := ParseTable(b, DYNSET_POLICY).value;
    assert Get(t, fs[6].typ) == fs[6].payload;
    assert Get(t, fs[7].typ) == fs[7].payload;
    ParseBuiltDynsetExprs(e.exprs, t, |b|);
    DynsetScalars(e, t);
  }

  lemma DynsetConforms(e: Expr)
    requires e.Dynset?
    ensures forall f <- DataFields(e) :: Conforms(f, DYNSET_POLICY)
    ensures Distinct(DataFields(e))
  {
    if |e.exprs| == 1 {
      TableNested(ExprAttrs(e.exprs[0]));
    }
  }

  lemma DynsetScalars(e: Expr, t: Table)
    requires e.Dynset? && Checked(t, DYNSET_POLICY)
    requires forall i :: 0 <= i < 9 ==> Get(t, DataFields(e)[i].typ) == DataFields(e)[i].payload
    ensures GetU32(DYNSET_POLICY, t, NFTA_DYNSET_SREG_KEY) == e.sregKey
    ensures GetU32(DYNSET_POLICY, t, NFTA_DYNSET_SREG_DATA) == e.sregData
    ensures GetU32(DYNSET_POLICY, t, NFTA_DYNSET_OP) == e.op
    ensures GetU64(DYNSET_POLICY, t, NFTA_DYNSET_TIMEOUT) == e.timeout
    ensures GetText(t, NFTA_DYNSET_SET_NAME) == e.setName
    ensures GetU32(DYNSET_POLICY, t, NFTA_DYNSET_SET_ID) == e.setId
    ensures GetU32(DYNSET_POLICY, t, NFTA_DYNSET_FLAGS) == e.dynsetFlags
  {
    var fs := DataFields(e);
    assert Get(t, fs[0].typ) == fs[0].payload;
    ReadU32(DYNSET_POLICY, t, NFTA_DYNSET_SREG_KEY, e.sregKey);
    assert Get(t, fs[1].typ) == fs[1].payload;
    ReadU32(DYNSET_POLICY, t, NFTA_DYNSET_SREG_DATA, e.sregData);
    assert Get(t, fs[2].typ) == fs[2].payload;
    ReadU32(DYNSET_POLICY, t, NFTA_DYNSET_OP, e.op);
    assert Get(t, fs[3].typ) == fs[3].payload;
    ReadU64(DYNSET_POLICY, t, NFTA_DYNSET_TIMEOUT, e.timeout);
    assert Get(t, fs[4].typ) == fs[4].payload;
    ReadText(t, NFTA_DYNSET_SET_NAME, e.setName);
    assert Get(t, fs[5].typ) == fs[5].payload;
    ReadU32(DYNSET_POLICY, t, NFTA_DYNSET_SET_ID, e.setId);
    assert Get(t, fs[8].typ) == fs[8].payload;
    ReadU32(DYNSET_POLICY, t, NFTA_DYNSET_FLAGS, e.dynsetFlags);
  }

  lemma ParseBuiltData(e: Expr, data: bytes)
    requires !e.Notrack? && data == Encode(Emit(DataFields(e))) && |data| <= 0xFFFF
    ensures ParseExprData(OpsOf(e), data) == Norm(e)
    decreases e, 3
  {
    hide Encode, Emit, Walk;
    if e.Dynset? {
      ParseBuiltDynset(e);
    } else {
      ParseBuiltLeaf(e, data);
    }
  }

  lemma ParseBuiltLeaf(e: Expr, data: bytes)
    requires !e.Notrack? && !e.Dynset? && data == Encode(Emit(DataFields(e))) && |data| <= 0xFFFF
    ensures ParseExprData(OpsOf(e), data) == Norm(e)
  {
    hide Encode, Walk;
    match e
    case Immediate(_, _, _, _, _) => ParseBuiltImmediate(e);
    case Cmp(_, _, _) => ParseBuiltCmp(e);
    case Lookup(_, _, _, _, _) => ParseBuiltLookup(e);
    case Bitwise(_, _, _, _, _, _, _) => ParseBuiltBitwise(e);
  }

  lemma ExprTable(name: CString, data: Option<seq<Attr>>, fs: seq<Field>)
    requires fs == [FieldText(NFTA_EXPR_NAME, Some(name)), FieldNest(NFTA_EXPR_DATA, data)]
    requires |Encode(Emit(fs))| <= 0xFFFF
    ensures ParseTable(Encode(Emit(fs)), EXPR_POLICY).Ok?
    ensures var t := ParseTable(Encode(Emit(fs)), EXPR_POLICY).value;
            && GetText(t, NFTA_EXPR_NAME) == Some(name)
            && Get(t, NFTA_EXPR_DATA) == fs[1].payload
  {
    FitsInside(Emit(fs));
    if data.Some? {
      TableNested(data.value);
    }
    TableOfFields(fs, EXPR_POLICY);
    var t := ParseTable(Encode(Emit(fs)), EXPR_POLICY).value;
    assert Get(t, fs[0].typ) == fs[0].payload;
    assert Get(t, fs[1].typ) == fs[1].payload;
    ReadText(t, NFTA_EXPR_NAME, Some(name));
  }

  /** Parsing a built expression, at any depth of nesting, gives its normal form:
      for every expression whose encoding fits a 16-bit length. */
  lemma {:induction false} ParseBuiltExpr(e: Expr)
    requires |Encode(ExprAttrs(e))| <= 0xFFFF
    ensures ParseExpr(Encode(ExprAttrs(e))) == Norm(e)
    decreases e, 4
  {
    hide Encode, Walk;
    var fs := ExprFields(e);
    ExprTable(OpsName(OpsOf(e)), if e.Notrack? then None else Some(Emit(DataFields(e))), fs);
    FindOpsName(OpsOf(e));
    if !e.Notrack? {
      FieldInside(fs, 1);
      ParseBuiltData(e, fs[1].payload.value);
    }
  }

  /** The round trip holds exactly for the canonical expressions. */
  lemma ExprRoundTrip(e: Expr)
    requires |Encode(ExprAttrs(e))| <= 0xFFFF
    ensures ParseExpr(Encode(ExprAttrs(e))) == Ok(e) <==> Canonical(e)
  {
    ParseBuiltExpr(e);
    NormIsIdentity(e);
  }

  /** Parsing a built expression succeeds exactly for the accepted ones, and is refused
      for all others. */
  lemma BuiltExprAccepted(e: Expr)
    requires |Encode(ExprAttrs(e))| <= 0xFFFF
    ensures var r := ParseExpr(Encode(ExprAttrs(e))); if Accepted(e) then r.Ok? else r == Rejected
  {
    hide Encode, ExprAttrs, ParseExpr;
    ParseBuiltExpr(e);
    NormOrRejected(e);
  }
}
