/** Reading attributes, with their types as numbers: what each parser takes from any
    bytes it accepts, and which payloads its callback checks. */
module WireRead {
  import opened Wrappers
  import opened Bytes
  import opened Netlink
  import opened Exprs
  import opened Rules
  import opened SetElems
  import opened Devices
  import opened Hooks

  /** The last attribute of a type, as the bytes of its payload. */
  function At(b: bytes, typ: nat): Option<bytes> {
    LastPayload(Walk(b), typ)
  }

  /** The number in the first bytes of a payload, the high byte first. */
  function U32In(p: Option<bytes>): Option<nat> {
    if p.Some? && |p.value| >= 4 then
      var a: int, b: int, c: int, d: int := p.value[0], p.value[1], p.value[2], p.value[3];
      Some(((a * 256 + b) * 256 + c) * 256 + d)
    else None
  }

  function U64In(p: Option<bytes>): Option<nat> {
    if p.Some? && |p.value| >= 8 then
      Some(U32In(Some(p.value[..4])).value * 0x1_0000_0000 + U32In(Some(p.value[4..8])).value)
    else None
  }

  /** The string in a payload. */
  function TextIn(p: Option<bytes>): Option<CString> {
    if p.Some? then Some(CStr(p.value)) else None
  }

  lemma ReadsU32(b: bytes)
    requires |b| == 4
    ensures U32In(Some(b)) == Some(GetBE32(b))
  {
    var a: int, c: int, d: int, e: int := b[0], b[1], b[2], b[3];
    assert b[..4] == b && b[..3] == [b[0], b[1], b[2]] && b[..3][..2] == [b[0], b[1]] && b[..3][..2][..1] == [b[0]];
    assert FromBigEndian(b[..3][..2][..1]) == a;
    assert FromBigEndian(b[..3][..2]) == a * 256 + c;
    assert FromBigEndian(b[..3]) == (a * 256 + c) * 256 + d;
  }

  lemma {:induction false} JoinBigEndian(b: bytes, n: nat)
    requires n <= |b|
    ensures FromBigEndian(b) == FromBigEndian(b[..n]) * Pow256(|b| - n) + FromBigEndian(b[n..])
    decreases |b|
  {
    if n == |b| {
      assert b[..n] == b && b[n..] == [];
    } else {
      var k := |b| - 1;
      JoinBigEndian(b[..k], n);
      assert b[..k][..n] == b[..n] && b[n..][..k - n] == b[..k][n..];
      Regroup(FromBigEndian(b[..n]), Pow256(k - n), FromBigEndian(b[..k][n..]), b[k]);
    }
  }

  lemma Regroup(x: nat, p: nat, y: nat, z: nat)
    ensures (x * p + y) * 256 + z == x * (256 * p) + (y * 256 + z)
  {
  }

  lemma ReadsU64(b: bytes)
    requires |b| == 8
    ensures U64In(Some(b)) == Some(GetBE64(b))
  {
    JoinBigEndian(b, 4);
    PowValues();
    assert b[..8] == b && b[4..8] == b[4..] && b[..4][..4] == b[..4] && b[4..][..4] == b[4..];
    ReadsU32(b[..4]);
    ReadsU32(b[4..]);
  }

  lemma TableU32(b: bytes, p: Policy, typ: nat)
    requires ParseTable(b, p).Ok? && typ <= p.max && KindOf(p, typ) == U32
    ensures GetU32(p, ParseTable(b, p).value, typ) == U32In(At(b, typ))
  {
    hide Walk, LastPayload, GetBE32;
    TableIsLast(b, p, typ);
    var t := ParseTable(b, p).value;
    if typ in t {
      ReadsU32(t[typ]);
    }
  }

  lemma TableU64(b: bytes, p: Policy, typ: nat)
    requires ParseTable(b, p).Ok? && typ <= p.max && KindOf(p, typ) == U64
    ensures GetU64(p, ParseTable(b, p).value, typ) == U64In(At(b, typ))
  {
    hide Walk, LastPayload, GetBE64;
    TableIsLast(b, p, typ);
    var t := ParseTable(b, p).value;
    if typ in t {
      ReadsU64(t[typ]);
    }
  }

  lemma TableText(b: bytes, p: Policy, typ: nat)
    requires ParseTable(b, p).Ok? && typ <= p.max
    ensures GetText(ParseTable(b, p).value, typ) == TextIn(At(b, typ))
  {
    hide Walk, LastPayload;
    TableIsLast(b, p, typ);
  }

  // ---------- which payloads are checked ----------

  /** A callback that knows the types up to `max`, has room for those up to `slots`, and
      checks the payloads of numbers, strings and nests of these types. */
  ghost predicate Checks(p: Policy, max: nat, slots: nat, u32s: set<nat>, u64s: set<nat>, texts: set<nat>,
                         nests: set<nat>) {
    && p.max == max && p.slots == slots
    && forall k: nat :: KindOf(p, k) == if k in u32s then U32 else if k in u64s then U64
                                        else if k in texts then Text else if k in nests then Nested else Unchecked
  }

  /** What the checks ask for: numbers have their size, strings are not empty, and a nest
      is empty or has room for a header. */
  lemma PayloadChecks(payload: bytes)
    ensures ValidPayload(U32, payload) <==> |payload| == 4
    ensures ValidPayload(U64, payload) <==> |payload| == 8
    ensures ValidPayload(Text, payload) <==> |payload| > 0
    ensures ValidPayload(Nested, payload) <==> |payload| == 0 || |payload| >= 4
    ensures ValidPayload(Unchecked, payload)
  {
  }

  lemma DataChecks()
    ensures Checks(DATA_POLICY, 2, 2, {}, {}, {}, {2})
    ensures Checks(VERDICT_POLICY, 3, 3, {1, 3}, {}, {2}, {})
  {
  }

  lemma ExprChecks()
    ensures Checks(EXPR_POLICY, 2, 2, {}, {}, {1}, {2})
  {
  }

  lemma ImmediateChecks()
    ensures Checks(IMMEDIATE_POLICY, 2, 2, {1}, {}, {}, {})
  {
  }

  lemma CmpChecks()
    ensures Checks(CMP_POLICY, 3, 3, {1, 2}, {}, {}, {})
  {
  }

  lemma LookupChecks()
    ensures Checks(LOOKUP_POLICY, 5, 5, {2, 3, 4, 5}, {}, {1}, {})
  {
  }

  lemma BitwiseChecks()
    ensures Checks(BITWISE_POLICY, 7, 7, {1, 2, 3, 6}, {}, {}, {})
  {
  }

  lemma DynsetChecks()
    ensures Checks(DYNSET_POLICY, 18, 18, {2, 3, 4, 5, 9}, {6}, {1}, {7})
  {
  }

  lemma RuleChecks()
    ensures Checks(RULE_POLICY, 11, 11, {9, 10}, {3, 6}, {1, 2}, {5})
  {
  }

  lemma CompatChecks()
    ensures Checks(COMPAT_POLICY, 2, 2, {1, 2}, {}, {}, {})
  {
  }

  lemma ElemChecks()
    ensures Checks(SET_ELEM_POLICY, 18, 11, {3}, {4, 5}, {}, {1, 2, 7, 10, 11})
  {
  }

  lemma HookChecks()
    ensures Checks(HOOK_POLICY, 4, 4, {1, 2}, {}, {3}, {})
  {
  }

  // ---------- data registers ----------

  /** A nest that only holds a value: 1 to 64 bytes in attribute 1, or no value at all. */
  lemma ValueReads(b: bytes)
    requires ParseTable(b, DATA_POLICY).Ok? && At(b, 2).None?
    ensures var r := ParseData(b);
      match At(b, 1)
      case None => r == Ok(DataParse(true, Some([]), None, 0, None))
      case Some(v) => r.Ok? && r.value.kind == Some(DataValue) && (r.value.ok <==> 1 <= |v| <= 64)
                      && (r.value.ok ==> r.value.val == Some(v))
  {
    hide Walk, LastPayload;
    TableIsLast(b, DATA_POLICY, 1);
    TableIsLast(b, DATA_POLICY, 2);
  }

  /** A nest with a verdict and no value: the code is attribute 1 of nest 2, the chain
      its attribute 2.  Accept, drop, queue, continue, break and return stand alone; jump
      and goto need a chain; no other code is known. */
  lemma VerdictReads(b: bytes, nest: bytes)
    requires ParseTable(b, DATA_POLICY).Ok? && At(b, 1).None? && At(b, 2) == Some(nest)
    requires ParseTable(nest, VERDICT_POLICY).Ok?
    ensures var r, code := ParseData(b), U32In(At(nest, 1));
      && r.Ok?
      && (r.value.ok <==> code.Some? && (code.value in {0, 1, 3, 0xFFFF_FFFF, 0xFFFF_FFFE, 0xFFFF_FFFB}
                                         || (code.value in {0xFFFF_FFFD, 0xFFFF_FFFC} && At(nest, 2).Some?)))
      && (r.value.ok ==> r.value.verdict == code.value)
      && (r.value.ok ==> if code.value in {0xFFFF_FFFD, 0xFFFF_FFFC}
                         then r.value.kind == Some(DataChain) && r.value.chain == TextIn(At(nest, 2))
                         else r.value.kind == Some(DataVerdict) && r.value.chain == None)
  {
    hide Walk, LastPayload, GetBE32;
    TableIsLast(b, DATA_POLICY, 1);
    TableIsLast(b, DATA_POLICY, 2);
    VerdictNestReads([], None, nest);
  }

  lemma VerdictNestReads(v: RegValue, kind: Option<RegKind>, nest: bytes)
    requires ParseTable(nest, VERDICT_POLICY).Ok? && v == []
    ensures var r, code := ParseVerdict(v, kind, nest), U32In(At(nest, 1));
      && r.Ok?
      && (r.value.ok <==> code.Some? && (code.value in {0, 1, 3, 0xFFFF_FFFF, 0xFFFF_FFFE, 0xFFFF_FFFB}
                                         || (code.value in {0xFFFF_FFFD, 0xFFFF_FFFC} && At(nest, 2).Some?)))
      && (r.value.ok ==> r.value.verdict == code.value)
      && (r.value.ok ==> if code.value in {0xFFFF_FFFD, 0xFFFF_FFFC}
                         then r.value.kind == Some(DataChain) && r.value.chain == TextIn(At(nest, 2))
                         else r.value.kind == Some(DataVerdict) && r.value.chain == None)
  {
    hide Walk, LastPayload, GetBE32;
    TableIsLast(nest, VERDICT_POLICY, 1);
    TableIsLast(nest, VERDICT_POLICY, 2);
    var t := ParseTable(nest, VERDICT_POLICY).value;
    if 1 in t {
      ReadsU32(t[1]);
    }
  }

  // ---------- expressions ----------

  /** The value of a register, when its nest is there. */
  ghost predicate ValueIn(p: Option<bytes>, v: Option<RegValue>) {
    if p.None? then v == None
    else ParseData(p.value).Ok? && ParseData(p.value).value.val == v && v.Some?
  }

  /** The data that a register of a kind carries. */
  ghost predicate DataIs(d: DataParse, kind: Option<RegKind>, data: Option<RegValue>, verdict: Option<u32>,
                         chain: Option<CString>) {
    match kind
    case None => false
    case Some(DataValue) => data == d.val && verdict == None && chain == None
    case Some(DataVerdict) => data == None && verdict == Some(d.verdict) && chain == None
    case Some(DataChain) => data == None && verdict == Some(d.verdict) && chain == d.chain
  }

  lemma ImmediateReads(b: bytes)
    requires ParseImmediate(b).Ok?
    ensures var e := ParseImmediate(b).value; e.Immediate? && e.dreg == U32In(At(b, 1)) && e.chainId == None
    ensures var e := ParseImmediate(b).value;
      match At(b, 2)
      case None => e.data == None && e.verdict == None && e.chain == None
      case Some(nest) =>
        var r := ParseData(nest);
        r.Ok? && r.value.ok && DataIs(r.value, r.value.kind, e.data, e.verdict, e.chain)
  {
    hide Walk, LastPayload, ParseData;
    TableU32(b, IMMEDIATE_POLICY, 1);
    TableIsLast(b, IMMEDIATE_POLICY, 2);
  }

  lemma CmpReads(b: bytes)
    requires ParseCmp(b).Ok?
    ensures var e := ParseCmp(b).value;
      e.Cmp? && e.sreg == U32In(At(b, 1)) && e.op == U32In(At(b, 2)) && ValueIn(At(b, 3), e.data)
  {
    hide Walk, LastPayload, ParseData;
    TableU32(b, CMP_POLICY, 1);
    TableU32(b, CMP_POLICY, 2);
    TableIsLast(b, CMP_POLICY, 3);
  }

  lemma LookupReads(b: bytes)
    requires ParseLookup(b).Ok?
    ensures var e := ParseLookup(b).value;
      && e.Lookup? && e.setName == TextIn(At(b, 1)) && e.sreg == U32In(At(b, 2)) && e.dreg == U32In(At(b, 3))
      && e.setId == U32In(At(b, 4)) && e.lookupFlags == U32In(At(b, 5))
  {
    hide Walk, LastPayload;
    TableText(b, LOOKUP_POLICY, 1);
    TableU32(b, LOOKUP_POLICY, 2);
    TableU32(b, LOOKUP_POLICY, 3);
    TableU32(b, LOOKUP_POLICY, 4);
    TableU32(b, LOOKUP_POLICY, 5);
  }

  /** The last of mask, xor and data that is there decides: its parser must succeed. */
  lemma BitwiseReads(b: bytes)
    requires ParseBitwise(b).Ok?
    ensures var e := ParseBitwise(b).value;
      && e.Bitwise? && e.sreg == U32In(At(b, 1)) && e.dreg == U32In(At(b, 2)) && e.len == U32In(At(b, 3))
      && e.op == U32In(At(b, 6))
      && ValueIn(At(b, 4), e.mask) && ValueIn(At(b, 5), e.xor) && ValueIn(At(b, 7), e.data)
    ensures var last := if At(b, 7).Some? then At(b, 7) else if At(b, 5).Some? then At(b, 5) else At(b, 4);
      last.Some? ==> ParseData(last.value).Ok? && ParseData(last.value).value.ok
  {
    hide Walk, LastPayload, ParseData;
    TableU32(b, BITWISE_POLICY, 1);
    TableU32(b, BITWISE_POLICY, 2);
    TableU32(b, BITWISE_POLICY, 3);
    TableU32(b, BITWISE_POLICY, 6);
    TableIsLast(b, BITWISE_POLICY, 4);
    TableIsLast(b, BITWISE_POLICY, 5);
    TableIsLast(b, BITWISE_POLICY, 7);
  }

  /** The inner expressions come from attribute 7, from the list 10 only without it. */
  ghost predicate ExprsIn(one: Option<bytes>, list: Option<bytes>, es: seq<Expr>) {
    if one.Some? then |es| == 1 && ParseExpr(one.value) == Ok(es[0])
    else if list.Some? then ListIn(Walk(list.value), es)
    else es == []
  }

  /** Every attribute has type 1 and holds one of the expressions. */
  ghost predicate ListIn(attrs: seq<Attr>, es: seq<Expr>) {
    |attrs| == |es| && forall i :: 0 <= i < |es| ==> TypeOf(attrs[i]) == 1 && ParseExpr(attrs[i].payload) == Ok(es[i])
  }

  lemma {:induction false} ListReads(attrs: seq<Attr>, bound: nat)
    requires forall a <- attrs :: |a.payload| < bound
    requires ParseList(attrs, bound).status.Ok?
    ensures ListIn(attrs, ParseList(attrs, bound).done)
  {
    hide ParseExpr;
    if attrs != [] {
      ListReads(attrs[1..], bound);
    }
  }

  lemma DynsetReads(b: bytes)
    requires ParseDynset(b).Ok?
    ensures var e := ParseDynset(b).value;
      && e.Dynset? && e.setName == TextIn(At(b, 1)) && e.setId == U32In(At(b, 2)) && e.op == U32In(At(b, 3))
      && e.sregKey == U32In(At(b, 4)) && e.sregData == U32In(At(b, 5)) && e.timeout == U64In(At(b, 6))
      && e.dynsetFlags == U32In(At(b, 9)) && ExprsIn(At(b, 7), At(b, 10), e.exprs)
  {
    hide Walk, LastPayload, ParseExpr, ParseList;
    TableText(b, DYNSET_POLICY, 1);
    TableU32(b, DYNSET_POLICY, 2);
    TableU32(b, DYNSET_POLICY, 3);
    TableU32(b, DYNSET_POLICY, 4);
    TableU32(b, DYNSET_POLICY, 5);
    TableU64(b, DYNSET_POLICY, 6);
    TableU32(b, DYNSET_POLICY, 9);
    DynsetExprsRead(b);
  }

  lemma DynsetExprsRead(b: bytes)
    requires ParseTable(b, DYNSET_POLICY).Ok?
    requires ParseDynsetExprs(ParseTable(b, DYNSET_POLICY).value, |b|).Ok?
    ensures ExprsIn(At(b, 7), At(b, 10), ParseDynsetExprs(ParseTable(b, DYNSET_POLICY).value, |b|).value)
  {
    hide Walk, LastPayload, ParseExpr, ParseList, ParseDynsetExprs, ExprsIn;
    TableIsLast(b, DYNSET_POLICY, 7);
    TableIsLast(b, DYNSET_POLICY, 10);
    DynsetExprsOf(ParseTable(b, DYNSET_POLICY).value, |b|);
  }

  lemma DynsetExprsOf(t: Table, bound: nat)
    requires (forall k <- t :: |t[k]| < bound) && ParseDynsetExprs(t, bound).Ok?
    ensures ExprsIn(Get(t, 7), Get(t, 10), ParseDynsetExprs(t, bound).value)
  {
    hide Walk, ParseExpr, ParseList, ListIn;
    if 7 !in t && 10 in t {
      WalkShorter(t[10]);
      ListReads(Walk(t[10]), |t[10]|);
    }
  }

  /** Any expression: its type is found by the string in attribute 1, an unknown type is
      refused, and the rest is read by the parser of that type from nest 2. */
  lemma ExprReads(b: bytes)
    requires ParseTable(b, EXPR_POLICY).Ok?
    ensures At(b, 1).None? ==> ParseExpr(b) == Undefined
    ensures At(b, 1).Some? && FindOps(CStr(At(b, 1).value)).None? ==> ParseExpr(b) == Rejected
    ensures At(b, 1).Some? && FindOps(CStr(At(b, 1).value)).Some? ==>
      var o := FindOps(CStr(At(b, 1).value)).value;
      match At(b, 2)
      case None => ParseExpr(b) == Ok(Fresh(o))
      case Some(data) => ParseExpr(b) == match o
        case OpsImmediate => ParseImmediate(data)
        case OpsCmp => ParseCmp(data)
        case OpsLookup => ParseLookup(data)
        case OpsBitwise => ParseBitwise(data)
        case OpsDynset => ParseDynset(data)
        case OpsNotrack => Ok(Notrack)
  {
    hide Walk, LastPayload, ParseImmediate, ParseCmp, ParseLookup, ParseBitwise, ParseDynset;
    TableIsLast(b, EXPR_POLICY, 1);
    TableIsLast(b, EXPR_POLICY, 2);
  }

  // ---------- rules ----------

  /** A rule that was parsed without an error: each attribute of the message replaces
      what the rule had, the others stay, the expressions are appended, and the family
      comes from the header. */
  lemma RuleReads(r: RuleValue, family: byte, b: bytes)
    requires ParseRule(r, family, b).1 == Ok(())
    ensures var p := ParseRule(r, family, b).0;
      && p.table == Or(TextIn(At(b, 1)), r.table) && p.chain == Or(TextIn(At(b, 2)), r.chain)
      && p.handle == Or(U64In(At(b, 3)), r.handle) && p.position == Or(U64In(At(b, 6)), r.position)
      && p.userdata == Or(At(b, 7), r.userdata) && p.id == Or(U32In(At(b, 9)), r.id)
      && p.positionId == Or(U32In(At(b, 10)), r.positionId) && p.family == Some(family)
    ensures var p := ParseRule(r, family, b).0;
      r.exprs <= p.exprs
      && (if At(b, 4).Some? then ListIn(Walk(At(b, 4).value), p.exprs[|r.exprs|..]) else p.exprs == r.exprs)
    ensures var p := ParseRule(r, family, b).0;
      if At(b, 5).Some? then p.compatProto == Or(U32In(At(At(b, 5).value, 1)), r.compatProto)
                             && p.compatFlags == Or(U32In(At(At(b, 5).value, 2)), r.compatFlags)
      else p.compatProto == r.compatProto && p.compatFlags == r.compatFlags
  {
    hide Walk, LastPayload, ParseList, ListIn;
    TableText(b, RULE_POLICY, 1);
    TableText(b, RULE_POLICY, 2);
    TableU64(b, RULE_POLICY, 3);
    TableU64(b, RULE_POLICY, 6);
    TableIsLast(b, RULE_POLICY, 7);
    TableU32(b, RULE_POLICY, 9);
    TableU32(b, RULE_POLICY, 10);
    RuleExprsRead(b);
    RuleCompatReads(b);
  }

  lemma RuleExprsRead(b: bytes)
    requires ParseTable(b, RULE_POLICY).Ok? && ParseRuleExprs(ParseTable(b, RULE_POLICY).value).status.Ok?
    ensures var es := ParseRuleExprs(ParseTable(b, RULE_POLICY).value).done;
      if At(b, 4).Some? then ListIn(Walk(At(b, 4).value), es) else es == []
  {
    hide Walk, LastPayload, ParseList, ListIn;
    TableIsLast(b, RULE_POLICY, 4);
    var t := ParseTable(b, RULE_POLICY).value;
    if 4 in t {
      WalkShorter(t[4]);
      ListReads(Walk(t[4]), |t[4]|);
    }
  }

  lemma RuleCompatReads(b: bytes)
    requires ParseTable(b, RULE_POLICY).Ok?
    ensures Get(ParseTable(b, RULE_POLICY).value, 5) == At(b, 5)
    ensures At(b, 5).Some? && ParseTable(At(b, 5).value, COMPAT_POLICY).Ok? ==>
      var t := ParseTable(At(b, 5).value, COMPAT_POLICY).value;
      && GetU32(COMPAT_POLICY, t, 1) == U32In(At(At(b, 5).value, 1))
      && GetU32(COMPAT_POLICY, t, 2) == U32In(At(At(b, 5).value, 2))
  {
    hide Walk, LastPayload, GetU32;
    TableIsLast(b, RULE_POLICY, 5);
    if At(b, 5).Some? && ParseTable(At(b, 5).value, COMPAT_POLICY).Ok? {
      TableU32(At(b, 5).value, COMPAT_POLICY, 1);
      TableU32(At(b, 5).value, COMPAT_POLICY, 2);
    }
  }

  /** A rule whose expressions or compat values were refused: table, chain and handle are
      replaced already, the expressions before the refused one are appended, and nothing
      else has changed. */
  lemma RuleReadsPartly(r: RuleValue, family: byte, b: bytes)
    requires ParseTable(b, RULE_POLICY).Ok? && !ParseRule(r, family, b).1.Ok?
    ensures var p := ParseRule(r, family, b).0;
      && p.table == Or(TextIn(At(b, 1)), r.table) && p.chain == Or(TextIn(At(b, 2)), r.chain)
      && p.handle == Or(U64In(At(b, 3)), r.handle) && r.exprs <= p.exprs
      && p.exprs[|r.exprs|..] == ParseRuleExprs(ParseTable(b, RULE_POLICY).value).done
      && p == r.(table := p.table, chain := p.chain, handle := p.handle, exprs := p.exprs)
  {
    hide Walk, LastPayload, ParseList, ParseRuleExprs, ParseCompat;
    TableText(b, RULE_POLICY, 1);
    TableText(b, RULE_POLICY, 2);
    TableU64(b, RULE_POLICY, 3);
  }

  // ---------- set elements ----------

  /** The nest of a key, which must parse without an error. */
  ghost predicate KeyIn(p: Option<bytes>, v: Option<RegValue>) {
    ValueIn(p, v) && (p.Some? ==> ParseData(p.value).value.ok)
  }

  /** The kind that a nest reports, or the one from before when it reports none. */
  function KindIn(p: Option<bytes>, before: Option<RegKind>): Option<RegKind> {
    if p.Some? && ParseData(p.value).Ok? && ParseData(p.value).value.kind.Some?
    then ParseData(p.value).value.kind else before
  }

  lemma ElemReads(b: bytes)
    requires ParseElem(b).Ok?
    ensures var e := ParseElem(b).value;
      && e.flags == U32In(At(b, 3)) && e.timeout == U64In(At(b, 4)) && e.expiration == U64In(At(b, 5))
      && e.userdata == At(b, 6) && e.objref == TextIn(At(b, 9))
      && KeyIn(At(b, 1), e.key) && KeyIn(At(b, 10), e.keyEnd)
      && ExprsIn(At(b, 7), At(b, 11), e.exprs)
  {
    hide Walk, LastPayload, ParseData, ParseExpr, ParseElemExprs, ParseElemData;
    TableU32(b, SET_ELEM_POLICY, 3);
    TableU64(b, SET_ELEM_POLICY, 4);
    TableU64(b, SET_ELEM_POLICY, 5);
    TableIsLast(b, SET_ELEM_POLICY, 6);
    TableText(b, SET_ELEM_POLICY, 9);
    TableIsLast(b, SET_ELEM_POLICY, 1);
    TableIsLast(b, SET_ELEM_POLICY, 10);
    ElemExprsRead(b);
  }

  lemma ElemExprsRead(b: bytes)
    requires ParseTable(b, SET_ELEM_POLICY).Ok? && ParseElemExprs(ParseTable(b, SET_ELEM_POLICY).value).Ok?
    ensures ExprsIn(At(b, 7), At(b, 11), ParseElemExprs(ParseTable(b, SET_ELEM_POLICY).value).value)
  {
    hide Walk, LastPayload, ParseExpr, ParseList;
    TableIsLast(b, SET_ELEM_POLICY, 7);
    TableIsLast(b, SET_ELEM_POLICY, 11);
    var t := ParseTable(b, SET_ELEM_POLICY).value;
    if 7 !in t && 11 in t {
      WalkShorter(t[11]);
      ListReads(Walk(t[11]), |t[11]|);
    }
  }

  /** The data of an element is what nest 2 says it is; an empty nest is taken for what
      the key end was, or else for what the key was. */
  lemma ElemDataReads(b: bytes)
    requires ParseElem(b).Ok?
    ensures var e := ParseElem(b).value;
      match At(b, 2)
      case None => e.data == None && e.verdict == None && e.chain == None
      case Some(nest) =>
        var r, kind := ParseData(nest), KindIn(At(b, 2), KindIn(At(b, 10), KindIn(At(b, 1), None)));
        r.Ok? && r.value.ok && DataIs(r.value, kind, e.data, e.verdict, e.chain)
  {
    hide Walk, LastPayload, ParseData, ParseKey, ParseElemData, ParseElemExprs, KindAfter, KindIn, DataIs;
    var t := ParseTable(b, SET_ELEM_POLICY).value;
    TableIsLast(b, SET_ELEM_POLICY, 1);
    TableIsLast(b, SET_ELEM_POLICY, 2);
    TableIsLast(b, SET_ELEM_POLICY, 10);
    KeyKind(t, 1, None);
    var kind := KindIn(Get(t, 1), None);
    KeyKind(t, 10, kind);
    ElemDataIs(t, KindIn(Get(t, 10), kind));
  }

  lemma KeyKind(t: Table, typ: nat, before: Option<RegKind>)
    ensures ParseKey(t, typ).Ok? ==> KindAfter(ParseKey(t, typ).value, before) == KindIn(Get(t, typ), before)
  {
    hide ParseData;
  }

  lemma ElemDataIs(t: Table, kind: Option<RegKind>)
    requires ParseElemData(t, kind).Ok?
    ensures var d := ParseElemData(t, kind).value;
      match Get(t, 2)
      case None => d.data == None && d.verdict == None && d.chain == None
      case Some(nest) =>
        var r := ParseData(nest);
        r.Ok? && r.value.ok && DataIs(r.value, KindIn(Get(t, 2), kind), d.data, d.verdict, d.chain)
  {
    hide ParseData;
  }

  // ---------- hooks ----------

  lemma HookReads(b: bytes)
    requires ParseHook(b).Ok?
    ensures var h := ParseHook(b).value;
      && h.hooknum == U32In(At(b, 1)) && h.prio == U32In(At(b, 2)) && h.dev == TextIn(At(b, 3))
      && match At(b, 4)
         case None => h.devices == None
         case Some(nest) => h.devices.Some? && DevicesIn(Walk(nest), h.devices.value)
  {
    hide Walk, LastPayload, DeviceNames;
    TableU32(b, HOOK_POLICY, 1);
    TableU32(b, HOOK_POLICY, 2);
    TableText(b, HOOK_POLICY, 3);
    TableIsLast(b, HOOK_POLICY, 4);
    if At(b, 4).Some? {
      DeviceNamesRead(Walk(At(b, 4).value));
    }
  }

  /** Every attribute has type 1 and holds one of the names. */
  ghost predicate DevicesIn(attrs: seq<Attr>, names: seq<CString>) {
    |attrs| == |names| && forall i :: 0 <= i < |names| ==> TypeOf(attrs[i]) == 1 && CStr(attrs[i].payload) == names[i]
  }

  lemma {:induction false} DeviceNamesRead(attrs: seq<Attr>)
    ensures DeviceNames(attrs).Some? <==> forall i :: 0 <= i < |attrs| ==> TypeOf(attrs[i]) == 1
    ensures DeviceNames(attrs).Some? ==> DevicesIn(attrs, DeviceNames(attrs).value)
  {
    if attrs != [] {
      var n := |attrs| - 1;
      DeviceNamesRead(attrs[..n]);
      assert forall i :: 0 <= i < n ==> attrs[..n][i] == attrs[i];
    }
  }
}
