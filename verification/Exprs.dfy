/** Expressions of a rule and their netlink form: what each builder writes, as a
    list of fields, and what each parser makes of any byte string. */
module Exprs {
  import opened Wrappers
  import opened Bytes
  import opened Netlink

  // ---------- data registers ----------

  const NFTA_DATA_VALUE := 1
  const NFTA_DATA_VERDICT := 2
  const DATA_POLICY := Policy(2, 2, [Unchecked, Unchecked, Nested])

  const NFTA_VERDICT_CODE := 1
  const NFTA_VERDICT_CHAIN := 2
  const NFTA_VERDICT_CHAIN_ID := 3
  const VERDICT_POLICY := Policy(3, 3, [Unchecked, U32, Text, U32])

  const NF_DROP: u32 := 0
  const NF_ACCEPT: u32 := 1
  const NF_QUEUE: u32 := 3
  const NFT_CONTINUE: u32 := 0xFFFF_FFFF
  const NFT_BREAK: u32 := 0xFFFF_FFFE
  const NFT_JUMP: u32 := 0xFFFF_FFFD
  const NFT_GOTO: u32 := 0xFFFF_FFFC
  const NFT_RETURN: u32 := 0xFFFF_FFFB

  const NFT_DATA_VALUE_MAXLEN := 64

  type RegValue = b: bytes | |b| <= NFT_DATA_VALUE_MAXLEN

  predicate PlainVerdict(code: u32) {
    code in [NF_ACCEPT, NF_DROP, NF_QUEUE, NFT_CONTINUE, NFT_BREAK, NFT_RETURN]
  }

  predicate JumpVerdict(code: u32) {
    code == NFT_JUMP || code == NFT_GOTO
  }

  datatype RegKind = DataValue | DataVerdict | DataChain

  /** What nftnl_parse_data leaves behind: whether it returned 0, the bytes that
      `val` and `len` of the union describe (None when they include a pointer), the
      kind it reported (None when `*type` was not written) and the verdict. */
  datatype DataParse = DataParse(ok: bool, val: Option<RegValue>, kind: Option<RegKind>,
                                 verdict: u32, chain: Option<CString>)

  /** Storing a verdict over the first four bytes of a value of the union. */
  function Overlay(v: RegValue, code: u32): RegValue {
    var n := if |v| < 4 then |v| else 4;
    LE32(code)[..n] + v[n..]
  }

  function ParseVerdict(v: RegValue, kind: Option<RegKind>, b: bytes): Outcome<DataParse> {
    var t :- ParseTable(b, VERDICT_POLICY);
    if NFTA_VERDICT_CODE !in t then Ok(DataParse(false, Some(v), kind, 0, None))
    else
      var code := GetBE32(t[NFTA_VERDICT_CODE]);
      if PlainVerdict(code) then
        Ok(DataParse(true, Some(LE32(code)), Some(DataVerdict), code, None))
      else if JumpVerdict(code) && NFTA_VERDICT_CHAIN in t then
        Ok(DataParse(true, if |v| <= 8 then Some(Overlay(v, code)) else None, Some(DataChain), code,
                     Some(CStr(t[NFTA_VERDICT_CHAIN]))))
      else Ok(DataParse(false, Some(Overlay(v, code)), kind, code, None))
  }

  /** nftnl_parse_data into a zeroed register. */
  function ParseData(b: bytes): Outcome<DataParse> {
    var t :- ParseTable(b, DATA_POLICY);
    if NFTA_DATA_VALUE in t && !(0 < |t[NFTA_DATA_VALUE]| <= NFT_DATA_VALUE_MAXLEN) then
      Ok(DataParse(false, Some([]), Some(DataValue), 0, None))
    else
      var v: RegValue := if NFTA_DATA_VALUE in t then t[NFTA_DATA_VALUE] else [];
      var kind := if NFTA_DATA_VALUE in t then Some(DataValue) else None;
      if NFTA_DATA_VERDICT in t then ParseVerdict(v, kind, t[NFTA_DATA_VERDICT])
      else Ok(DataParse(true, Some(v), kind, 0, None))
  }

  function ValueAttrs(v: RegValue): seq<Attr> {
    [Attr(NFTA_DATA_VALUE, v)]
  }

  function VerdictAttrs(code: u32, chain: Option<CString>, chainId: Option<u32>): seq<Attr> {
    [Attr(NestType(NFTA_DATA_VERDICT), Encode(Emit(VerdictFields(code, chain, chainId))))]
  }

  function VerdictFields(code: u32, chain: Option<CString>, chainId: Option<u32>): seq<Field> {
    [ FieldU32(NFTA_VERDICT_CODE, Some(code)),
      FieldText(NFTA_VERDICT_CHAIN, chain),
      FieldU32(NFTA_VERDICT_CHAIN_ID, chainId) ]
  }

  function FieldValue(typ: nat, v: Option<RegValue>): Field {
    FieldNest(typ, if v.Some? then Some(ValueAttrs(v.value)) else None)
  }

  // ---------- expressions ----------

  /** An expression: an optional field is present when its flag bit is set.  Six of
      the entries of the table of operations: five with a codec, and one (notrack)
      that has neither a builder nor a parser. */
  datatype Expr =
    | Immediate(dreg: Option<u32>, data: Option<RegValue>, verdict: Option<u32>,
                chain: Option<CString>, chainId: Option<u32>)
    | Cmp(sreg: Option<u32>, op: Option<u32>, data: Option<RegValue>)
    | Lookup(sreg: Option<u32>, dreg: Option<u32>, setName: Option<CString>,
             setId: Option<u32>, lookupFlags: Option<u32>)
    | Bitwise(sreg: Option<u32>, dreg: Option<u32>, op: Option<u32>, len: Option<u32>,
              mask: Option<RegValue>, xor: Option<RegValue>, data: Option<RegValue>)
    | Dynset(sregKey: Option<u32>, sregData: Option<u32>, op: Option<u32>, timeout: Option<u64>,
             setName: Option<CString>, setId: Option<u32>, exprs: seq<Expr>,
             dynsetFlags: Option<u32>)
    | Notrack

  datatype Ops = OpsImmediate | OpsCmp | OpsLookup | OpsBitwise | OpsDynset | OpsNotrack

  function OpsOf(e: Expr): Ops {
    match e
    case Immediate(_, _, _, _, _) => OpsImmediate
    case Cmp(_, _, _) => OpsCmp
    case Lookup(_, _, _, _, _) => OpsLookup
    case Bitwise(_, _, _, _, _, _, _) => OpsBitwise
    case Dynset(_, _, _, _, _, _, _, _) => OpsDynset
    case Notrack => OpsNotrack
  }

  function Ascii(s: string): (b: CString)
    requires forall c <- s :: 0 < c as int < 0x80
    ensures |b| == |s|
  {
    var b := seq(|s|, i requires 0 <= i < |s| => s[i] as int);
    assert forall i :: 0 <= i < |b| ==> s[i] in s && b[i] == s[i] as int;
    b
  }

  function OpsName(o: Ops): (name: CString)
    ensures |name| <= 9
  {
    match o
    case OpsImmediate => Ascii("immediate")
    case OpsCmp => Ascii("cmp")
    case OpsLookup => Ascii("lookup")
    case OpsBitwise => Ascii("bitwise")
    case OpsDynset => Ascii("dynset")
    case OpsNotrack => Ascii("notrack")
  }

  /** nftnl_expr_ops_lookup, in table order. */
  function FindOps(name: CString): (o: Option<Ops>) {
    if name == OpsName(OpsBitwise) then Some(OpsBitwise)
    else if name == OpsName(OpsCmp) then Some(OpsCmp)
    else if name == OpsName(OpsImmediate) then Some(OpsImmediate)
    else if name == OpsName(OpsLookup) then Some(OpsLookup)
    else if name == OpsName(OpsNotrack) then Some(OpsNotrack)
    else if name == OpsName(OpsDynset) then Some(OpsDynset)
    else None
  }

  lemma FindOpsName(o: Ops)
    ensures FindOps(OpsName(o)) == Some(o)
  {
    assert OpsName(OpsLookup)[0] == 'l' as int;
    assert OpsName(OpsDynset)[0] == 'd' as int;
    assert OpsName(OpsBitwise)[0] == 'b' as int;
    assert OpsName(OpsNotrack)[0] == 'n' as int;
  }

  /** No other name is known. */
  lemma FindOpsOnly(name: CString, o: Ops)
    ensures FindOps(name) == Some(o) <==> name == OpsName(o)
  {
    hide OpsName;
    FindOpsName(OpsBitwise);
    FindOpsName(OpsCmp);
    FindOpsName(OpsImmediate);
    FindOpsName(OpsLookup);
    FindOpsName(OpsNotrack);
    FindOpsName(OpsDynset);
  }

  /** What nftnl_expr_alloc returns: no attribute set. */
  function Fresh(o: Ops): Expr {
    match o
    case OpsImmediate => Immediate(None, None, None, None, None)
    case OpsCmp => Cmp(None, None, None)
    case OpsLookup => Lookup(None, None, None, None, None)
    case OpsBitwise => Bitwise(None, None, None, None, None, None, None)
    case OpsDynset => Dynset(None, None, None, None, None, None, [], None)
    case OpsNotrack => Notrack
  }

  const NFTA_EXPR_NAME := 1
  const NFTA_EXPR_DATA := 2
  const EXPR_POLICY := Policy(2, 2, [Unchecked, Text, Nested])

  const NFTA_IMMEDIATE_DREG := 1
  const NFTA_IMMEDIATE_DATA := 2
  const IMMEDIATE_POLICY := Policy(2, 2, [Unchecked, U32])

  const NFTA_CMP_SREG := 1
  const NFTA_CMP_OP := 2
  const NFTA_CMP_DATA := 3
  const CMP_POLICY := Policy(3, 3, [Unchecked, U32, U32])

  const NFTA_LOOKUP_SET := 1
  const NFTA_LOOKUP_SREG := 2
  const NFTA_LOOKUP_DREG := 3
  const NFTA_LOOKUP_SET_ID := 4
  const NFTA_LOOKUP_FLAGS := 5
  const LOOKUP_POLICY := Policy(5, 5, [Unchecked, Text, U32, U32, U32, U32])

  const NFTA_BITWISE_SREG := 1
  const NFTA_BITWISE_DREG := 2
  const NFTA_BITWISE_LEN := 3
  const NFTA_BITWISE_MASK := 4
  const NFTA_BITWISE_XOR := 5
  const NFTA_BITWISE_OP := 6
  const NFTA_BITWISE_DATA := 7
  const BITWISE_POLICY := Policy(7, 7, [Unchecked, U32, U32, U32, Unchecked, Unchecked, U32])

  const NFTA_DYNSET_SET_NAME := 1
  const NFTA_DYNSET_SET_ID := 2
  const NFTA_DYNSET_OP := 3
  const NFTA_DYNSET_SREG_KEY := 4
  const NFTA_DYNSET_SREG_DATA := 5
  const NFTA_DYNSET_TIMEOUT := 6
  const NFTA_DYNSET_EXPR := 7
  const NFTA_DYNSET_FLAGS := 9
  const NFTA_DYNSET_EXPRESSIONS := 10
  const NFTA_SET_MAX := 18
  const DYNSET_POLICY := Policy(NFTA_SET_MAX, NFTA_SET_MAX,
    [Unchecked, Text, U32, U32, U32, U32, U64, Nested, Unchecked, U32])

  // ---------- what the builders write ----------

  function ImmediateData(e: Expr): Option<seq<Attr>>
    requires e.Immediate?
  {
    if e.data.Some? then Some(ValueAttrs(e.data.value))
    else if e.verdict.Some? then Some(VerdictAttrs(e.verdict.value, e.chain, e.chainId))
    else None
  }

  function ImmediateFields(e: Expr): seq<Field>
    requires e.Immediate?
  {
    [ FieldU32(NFTA_IMMEDIATE_DREG, e.dreg), FieldNest(NFTA_IMMEDIATE_DATA, ImmediateData(e)) ]
  }

  function CmpFields(e: Expr): seq<Field>
    requires e.Cmp?
  {
    [ FieldU32(NFTA_CMP_SREG, e.sreg), FieldU32(NFTA_CMP_OP, e.op), FieldValue(NFTA_CMP_DATA, e.data) ]
  }

  function LookupFields(e: Expr): seq<Field>
    requires e.Lookup?
  {
    [ FieldU32(NFTA_LOOKUP_SREG, e.sreg), FieldU32(NFTA_LOOKUP_DREG, e.dreg),
      FieldText(NFTA_LOOKUP_SET, e.setName), FieldU32(NFTA_LOOKUP_SET_ID, e.setId),
      FieldU32(NFTA_LOOKUP_FLAGS, e.lookupFlags) ]
  }

  function BitwiseFields(e: Expr): seq<Field>
    requires e.Bitwise?
  {
    [ FieldU32(NFTA_BITWISE_SREG, e.sreg), FieldU32(NFTA_BITWISE_DREG, e.dreg),
      FieldU32(NFTA_BITWISE_OP, e.op), FieldU32(NFTA_BITWISE_LEN, e.len),
      FieldValue(NFTA_BITWISE_MASK, e.mask), FieldValue(NFTA_BITWISE_XOR, e.xor),
      FieldValue(NFTA_BITWISE_DATA, e.data) ]
  }

  /** The attributes the `build` operation of an expression writes, in order. */
  function DataFields(e: Expr): seq<Field>
    decreases e, 0
  {
    match e
    case Immediate(_, _, _, _, _) => ImmediateFields(e)
    case Cmp(_, _, _) => CmpFields(e)
    case Lookup(_, _, _, _, _) => LookupFields(e)
    case Bitwise(_, _, _, _, _, _, _) => BitwiseFields(e)
    case Dynset(sregKey, sregData, op, timeout, setName, setId, exprs, flags) =>
      [ FieldU32(NFTA_DYNSET_SREG_KEY, sregKey), FieldU32(NFTA_DYNSET_SREG_DATA, sregData),
        FieldU32(NFTA_DYNSET_OP, op), FieldU64(NFTA_DYNSET_TIMEOUT, timeout),
        FieldText(NFTA_DYNSET_SET_NAME, setName), FieldU32(NFTA_DYNSET_SET_ID, setId),
        FieldNest(NFTA_DYNSET_EXPR, if |exprs| == 1 then Some(ExprAttrs(exprs[0])) else None),
        FieldNest(NFTA_DYNSET_EXPRESSIONS, if |exprs| > 1 then Some(ListAttrs(exprs)) else None),
        FieldU32(NFTA_DYNSET_FLAGS, flags) ]
    case Notrack => []
  }

  /** nftnl_expr_build_payload */
  function ExprFields(e: Expr): seq<Field>
    decreases e, 1
  {
    [ FieldText(NFTA_EXPR_NAME, Some(OpsName(OpsOf(e)))),
      FieldNest(NFTA_EXPR_DATA, if e.Notrack? then None else Some(Emit(DataFields(e)))) ]
  }

  function ExprAttrs(e: Expr): seq<Attr>
    decreases e, 2
  {
    Emit(ExprFields(e))
  }

  /** A list of expressions, each in a nest of its own. */
  function ListAttrs(es: seq<Expr>): seq<Attr>
    decreases es
  {
    if es == [] then []
    else [Attr(NestType(NFTA_LIST_ELEM), Encode(ExprAttrs(es[0])))] + ListAttrs(es[1..])
  }

  // ---------- what the parsers make of any bytes ----------

  function ParseImmediate(b: bytes): Outcome<Expr> {
    var t :- ParseTable(b, IMMEDIATE_POLICY);
    ImmediateOf(t)
  }

  function ImmediateOf(t: Table): Outcome<Expr>
    requires Checked(t, IMMEDIATE_POLICY)
  {
    var dreg := GetU32(IMMEDIATE_POLICY, t, NFTA_IMMEDIATE_DREG);
    if NFTA_IMMEDIATE_DATA !in t then Ok(Immediate(dreg, None, None, None, None))
    else
      var d :- ParseData(t[NFTA_IMMEDIATE_DATA]);
      if !d.ok then Rejected
      else match d.kind
        case None => Undefined
        case Some(DataValue) => Ok(Immediate(dreg, d.val, None, None, None))
        case Some(DataVerdict) => Ok(Immediate(dreg, None, Some(d.verdict), None, None))
        case Some(DataChain) => Ok(Immediate(dreg, None, Some(d.verdict), d.chain, None))
  }

  function ParseCmp(b: bytes): Outcome<Expr> {
    var t :- ParseTable(b, CMP_POLICY);
    var sreg, op := GetU32(CMP_POLICY, t, NFTA_CMP_SREG), GetU32(CMP_POLICY, t, NFTA_CMP_OP);
    if NFTA_CMP_DATA !in t then Ok(Cmp(sreg, op, None))
    else
      var d :- ParseData(t[NFTA_CMP_DATA]);
      if !d.ok then Rejected
      else if d.val.None? then Undefined
      else Ok(Cmp(sreg, op, d.val))
  }

  function ParseLookup(b: bytes): Outcome<Expr> {
    var t :- ParseTable(b, LOOKUP_POLICY);
    Ok(Lookup(GetU32(LOOKUP_POLICY, t, NFTA_LOOKUP_SREG), GetU32(LOOKUP_POLICY, t, NFTA_LOOKUP_DREG),
              GetText(t, NFTA_LOOKUP_SET),
              GetU32(LOOKUP_POLICY, t, NFTA_LOOKUP_SET_ID), GetU32(LOOKUP_POLICY, t, NFTA_LOOKUP_FLAGS)))
  }

  /** One of the three registers of a bitwise expression, when it is present. */
  function ParseRegister(t: Table, typ: nat): Outcome<Option<DataParse>> {
    if typ !in t then Ok(None)
    else
      var d :- ParseData(t[typ]);
      Ok(Some(d))
  }

  /** The register holds a pointer where its value is looked at. */
  predicate HoldsPointer(d: Option<DataParse>) {
    d.Some? && d.value.val.None?
  }

  function RegisterValue(d: Option<DataParse>): Option<RegValue> {
    if d.Some? then d.value.val else None
  }

  /** The parser keeps only the return value of the last register it read.  A register
      that holds a pointer matters only when the expression is accepted. */
  function ParseBitwise(b: bytes): Outcome<Expr> {
    var t :- ParseTable(b, BITWISE_POLICY);
    BitwiseOf(t)
  }

  function BitwiseOf(t: Table): Outcome<Expr>
    requires Checked(t, BITWISE_POLICY)
  {
    var mask :- ParseRegister(t, NFTA_BITWISE_MASK);
    var xor :- ParseRegister(t, NFTA_BITWISE_XOR);
    var data :- ParseRegister(t, NFTA_BITWISE_DATA);
    var last := if data.Some? then data else if xor.Some? then xor else mask;
    if last.Some? && !last.value.ok then Rejected
    else if HoldsPointer(mask) || HoldsPointer(xor) || HoldsPointer(data) then Undefined
    else Ok(Bitwise(GetU32(BITWISE_POLICY, t, NFTA_BITWISE_SREG), GetU32(BITWISE_POLICY, t, NFTA_BITWISE_DREG),
                    GetU32(BITWISE_POLICY, t, NFTA_BITWISE_OP), GetU32(BITWISE_POLICY, t, NFTA_BITWISE_LEN),
                    RegisterValue(mask), RegisterValue(xor), RegisterValue(data)))
  }

  /** The expression list of a dynset: one bare expression or a list nest. */
  function ParseDynsetExprs(t: Table, bound: nat): Outcome<seq<Expr>>
    requires forall k <- t :: |t[k]| < bound
    decreases bound, 0, 0
  {
    if NFTA_DYNSET_EXPR in t then
      var e :- ParseExpr(t[NFTA_DYNSET_EXPR]);
      Ok([e])
    else if NFTA_DYNSET_EXPRESSIONS in t then
      var nest := t[NFTA_DYNSET_EXPRESSIONS];
      WalkShorter(nest);
      ParseList(Walk(nest), |nest|).All()
    else Ok([])
  }

  function ParseDynset(b: bytes): Outcome<Expr>
    decreases |b|, 1, 0
  {
    var t :- ParseTable(b, DYNSET_POLICY);
    var exprs :- ParseDynsetExprs(t, |b|);
    Ok(DynsetOf(t, exprs))
  }

  function DynsetOf(t: Table, exprs: seq<Expr>): Expr
    requires Checked(t, DYNSET_POLICY)
  {
    Dynset(GetU32(DYNSET_POLICY, t, NFTA_DYNSET_SREG_KEY),
           GetU32(DYNSET_POLICY, t, NFTA_DYNSET_SREG_DATA),
           GetU32(DYNSET_POLICY, t, NFTA_DYNSET_OP),
           GetU64(DYNSET_POLICY, t, NFTA_DYNSET_TIMEOUT),
           GetText(t, NFTA_DYNSET_SET_NAME), GetU32(DYNSET_POLICY, t, NFTA_DYNSET_SET_ID),
           exprs, GetU32(DYNSET_POLICY, t, NFTA_DYNSET_FLAGS))
  }

  /** nftnl_expr_parse */
  function ParseExpr(b: bytes): Outcome<Expr>
    decreases |b|, 2, 0
  {
    var t :- ParseTable(b, EXPR_POLICY);
    if NFTA_EXPR_NAME !in t then Undefined
    else match FindOps(CStr(t[NFTA_EXPR_NAME]))
      case None => Rejected
      case Some(o) =>
        if NFTA_EXPR_DATA !in t then Ok(Fresh(o)) else ParseExprData(o, t[NFTA_EXPR_DATA])
  }

  /** The `parse` operation of the expression. */
  function ParseExprData(o: Ops, data: bytes): Outcome<Expr>
    decreases |data|, 2, 0
  {
    match o
    case OpsImmediate => ParseImmediate(data)
    case OpsCmp => ParseCmp(data)
    case OpsLookup => ParseLookup(data)
    case OpsBitwise => ParseBitwise(data)
    case OpsDynset => ParseDynset(data)
    case OpsNotrack => Ok(Notrack)
  }

  /** The expressions a list loop appended before it ended, and how it ended. */
  datatype ListParse = ListParse(done: seq<Expr>, status: Outcome<()>) {
    function All(): Outcome<seq<Expr>> {
      if status.Ok? then Ok(done) else status.PropagateFailure()
    }
  }

  /** The loop over a list nest: an attribute of another type, or an expression
      that does not parse, ends it. */
  function ParseList(attrs: seq<Attr>, bound: nat): ListParse
    requires forall a <- attrs :: |a.payload| < bound
    decreases bound, 0, |attrs|
  {
    if attrs == [] then ListParse([], Ok(()))
    else if TypeOf(attrs[0]) != NFTA_LIST_ELEM then ListParse([], Rejected)
    else
      var r := ParseExpr(attrs[0].payload);
      if !r.Ok? then ListParse([], r.PropagateFailure())
      else
        var rest := ParseList(attrs[1..], bound);
        ListParse([r.value] + rest.done, rest.status)
  }
}
