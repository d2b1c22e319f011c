/** The parsers of expressions as the loops and field updates they are.  Each is
    proved to compute what module Exprs says the bytes mean. */
module ExprParse {
  import opened Wrappers
  import opened Bytes
  import opened Netlink
  import opened Messages
  import opened Exprs

  /** nftnl_parse_verdict */
  method ReadVerdict(d: DataParse, b: bytes) returns (r: Outcome<DataParse>)
    requires d.ok && d.val.Some? && d.verdict == 0 && d.chain == None
    ensures r == ParseVerdict(d.val.value, d.kind, b)
    ensures ParseTable(b, VERDICT_POLICY).Ok? ==>
      var t := ParseTable(b, VERDICT_POLICY).value;
      && r.Ok?
      && (r.value.ok
          <==> (1 in t
                && (GetBE32(t[1]) in {0, 1, 3, 0xFFFF_FFFF, 0xFFFF_FFFE, 0xFFFF_FFFB}
                    || (GetBE32(t[1]) in {0xFFFF_FFFD, 0xFFFF_FFFC} && 2 in t))))
  {
    var t :- ParseNested(b, VERDICT_POLICY);
    if NFTA_VERDICT_CODE !in t {
      return Ok(d.(ok := false));
    }
    var code := GetBE32(t[NFTA_VERDICT_CODE]);
    var data := d.(verdict := code, val := Some(Overlay(d.val.value, code)));
    if PlainVerdict(code) {
      return Ok(data.(kind := Some(DataVerdict), val := Some(LE32(code))));
    }
    if !JumpVerdict(code) || NFTA_VERDICT_CHAIN !in t {
      return Ok(data.(ok := false));
    }
    data := data.(chain := Some(CStr(t[NFTA_VERDICT_CHAIN])), kind := Some(DataChain));
    if |d.val.value| > 8 {
      data := data.(val := None);
    }
    r := Ok(data);
  }

  /** nftnl_parse_data */
  method ReadData(b: bytes) returns (r: Outcome<DataParse>)
    ensures r == ParseData(b)
  {
    var t :- ParseNested(b, DATA_POLICY);
    var d := DataParse(true, Some([]), None, 0, None);
    if NFTA_DATA_VALUE in t {
      var v := t[NFTA_DATA_VALUE];
      d := d.(kind := Some(DataValue));
      if |v| == 0 || |v| > NFT_DATA_VALUE_MAXLEN {
        return Ok(d.(ok := false));
      }
      d := d.(val := Some(v));
    }
    if NFTA_DATA_VERDICT in t {
      r := ReadVerdict(d, t[NFTA_DATA_VERDICT]);
    } else {
      r := Ok(d);
    }
  }

  method ReadImmediate(b: bytes) returns (r: Outcome<Expr>)
    ensures r == ParseImmediate(b)
  {
    var t :- ParseNested(b, IMMEDIATE_POLICY);
    var dreg := GetU32(IMMEDIATE_POLICY, t, NFTA_IMMEDIATE_DREG);
    var data, verdict, chain := None, None, None;
    if NFTA_IMMEDIATE_DATA in t {
      var d :- ReadData(t[NFTA_IMMEDIATE_DATA]);
      if !d.ok {
        return Rejected;
      }
      match d.kind
      case None => return Undefined;
      case Some(DataValue) => data := d.val;
      case Some(DataVerdict) => verdict := Some(d.verdict);
      case Some(DataChain) => verdict, chain := Some(d.verdict), d.chain;
    }
    r := Ok(Immediate(dreg, data, verdict, chain, None));
  }

  method ReadCmp(b: bytes) returns (r: Outcome<Expr>)
    ensures r == ParseCmp(b)
  {
    var t :- ParseNested(b, CMP_POLICY);
    var sreg := GetU32(CMP_POLICY, t, NFTA_CMP_SREG);
    var op := GetU32(CMP_POLICY, t, NFTA_CMP_OP);
    var data := None;
    if NFTA_CMP_DATA in t {
      var d :- ReadData(t[NFTA_CMP_DATA]);
      if !d.ok {
        return Rejected;
      }
      if d.val.None? {
        return Undefined;
      }
      data := d.val;
    }
    r := Ok(Cmp(sreg, op, data));
  }

  method ReadLookup(b: bytes) returns (r: Outcome<Expr>)
    ensures r == ParseLookup(b)
  {
    var t :- ParseNested(b, LOOKUP_POLICY);
    var sreg := GetU32(LOOKUP_POLICY, t, NFTA_LOOKUP_SREG);
    var dreg := GetU32(LOOKUP_POLICY, t, NFTA_LOOKUP_DREG);
    var setName := GetText(t, NFTA_LOOKUP_SET);
    var setId := GetU32(LOOKUP_POLICY, t, NFTA_LOOKUP_SET_ID);
    var flags := GetU32(LOOKUP_POLICY, t, NFTA_LOOKUP_FLAGS);
    r := Ok(Lookup(sreg, dreg, setName, setId, flags));
  }

  method ReadRegister(t: Table, typ: nat) returns (r: Outcome<Option<DataParse>>)
    ensures r == ParseRegister(t, typ)
  {
    if typ !in t {
      return Ok(None);
    }
    var d :- ReadData(t[typ]);
    r := Ok(Some(d));
  }

  method ReadBitwise(b: bytes) returns (r: Outcome<Expr>)
    ensures r == ParseBitwise(b)
  {
    var ret := true;
    var t :- ParseNested(b, BITWISE_POLICY);
    var sreg := GetU32(BITWISE_POLICY, t, NFTA_BITWISE_SREG);
    var dreg := GetU32(BITWISE_POLICY, t, NFTA_BITWISE_DREG);
    var op := GetU32(BITWISE_POLICY, t, NFTA_BITWISE_OP);
    var len := GetU32(BITWISE_POLICY, t, NFTA_BITWISE_LEN);
    var mask :- ReadRegister(t, NFTA_BITWISE_MASK);
    if mask.Some? {
      ret := mask.value.ok;
    }
    var xor :- ReadRegister(t, NFTA_BITWISE_XOR);
    if xor.Some? {
      ret := xor.value.ok;
    }
    var data :- ReadRegister(t, NFTA_BITWISE_DATA);
    if data.Some? {
      ret := data.value.ok;
    }
    if !ret {
      return Rejected;
    }
    if HoldsPointer(mask) || HoldsPointer(xor) || HoldsPointer(data) {
      return Undefined;
    }
    r := Ok(Bitwise(sreg, dreg, op, len, RegisterValue(mask), RegisterValue(xor), RegisterValue(data)));
  }

  /** One turn of the list loop, with the expressions `exprs` already appended. */
  lemma ListStep(a: Attr, rest: seq<Attr>, todo: seq<Attr>, bound: nat, exprs: seq<Expr>)
    requires todo == [a] + rest
    requires forall x <- todo :: |x.payload| < bound
    ensures |a.payload| < bound
    ensures forall x <- rest :: |x.payload| < bound
    ensures var p, q, r := ParseList(todo, bound), ParseList(rest, bound), ParseExpr(a.payload);
            if TypeOf(a) != NFTA_LIST_ELEM then
              exprs + p.done == exprs && p.status == Rejected
            else if !r.Ok? then
              exprs + p.done == exprs && p.status == r.PropagateFailure<()>()
            else
              exprs + p.done == (exprs + [r.value]) + q.done && p.status == q.status
  {
    assert a in todo;
    forall x <- rest ensures |x.payload| < bound {
      assert x in todo;
    }
    assert todo[1..] == rest;
    var r, q := ParseExpr(a.payload), ParseList(rest, bound);
    assert exprs + [] == exprs;
    if TypeOf(a) == NFTA_LIST_ELEM && r.Ok? {
      assert ParseList(todo, bound) == ListParse([r.value] + q.done, q.status);
      assert exprs + ([r.value] + q.done) == (exprs + [r.value]) + q.done;
    }
  }

  /** The loop that reads a list of expressions, appending each. */
  method ReadList(b: bytes) returns (r: ListParse)
    ensures (forall a <- Walk(b) :: |a.payload| < |b|) && r == ParseList(Walk(b), |b|)
    decreases |b|, 0
  {
    var at := 0;
    var exprs: seq<Expr> := [];
    WalkShorter(b);
    ghost var all := ParseList(Walk(b), |b|);
    ghost var todo, remaining := Walk(b), all;
    assert Rest(b, 0) == b;
    assert [] + remaining.done == remaining.done;
    while AttrAt(b, at).Some?
      invariant todo == Walk(Rest(b, at))
      invariant forall a <- todo :: |a.payload| < |b|
      invariant remaining == ParseList(todo, |b|)
      invariant all == ListParse(exprs + remaining.done, remaining.status)
      decreases |b| - at
    {
      var (a, next) := AttrAt(b, at).value;
      ghost var rest := Walk(Rest(b, next));
      WalkStep(b, at, a, next, todo, rest);
      ListStep(a, rest, todo, |b|, exprs);
      if TypeOf(a) != NFTA_LIST_ELEM {
        return ListParse(exprs, Rejected);
      }
      var e := ReadExpr(a.payload);
      if !e.Ok? {
        return ListParse(exprs, e.PropagateFailure());
      }
      exprs := exprs + [e.value];
      at, todo, remaining := next, rest, ParseList(rest, |b|);
    }
    WalkEnd(b, at);
    assert exprs + [] == exprs;
    r := ListParse(exprs, Ok(()));
  }

  method ReadDynset(b: bytes) returns (r: Outcome<Expr>)
    ensures r == ParseDynset(b)
    decreases |b|, 1
  {
    hide GetText, ParseExpr, Walk, Collect;
    var t :- ParseNested(b, DYNSET_POLICY);
    var sregKey := GetU32(DYNSET_POLICY, t, NFTA_DYNSET_SREG_KEY);
    var sregData := GetU32(DYNSET_POLICY, t, NFTA_DYNSET_SREG_DATA);
    var op := GetU32(DYNSET_POLICY, t, NFTA_DYNSET_OP);
    var timeout := GetU64(DYNSET_POLICY, t, NFTA_DYNSET_TIMEOUT);
    var setName := GetText(t, NFTA_DYNSET_SET_NAME);
    var setId := GetU32(DYNSET_POLICY, t, NFTA_DYNSET_SET_ID);
    var exprs: seq<Expr> := [];
    if NFTA_DYNSET_EXPR in t {
      var inner :- ReadExpr(t[NFTA_DYNSET_EXPR]);
      exprs := [inner];
    } else if NFTA_DYNSET_EXPRESSIONS in t {
      var list := ReadList(t[NFTA_DYNSET_EXPRESSIONS]);
      if !list.status.Ok? {
        return list.status.PropagateFailure();
      }
      exprs := list.done;
    }
    var flags := GetU32(DYNSET_POLICY, t, NFTA_DYNSET_FLAGS);
    r := Ok(Dynset(sregKey, sregData, op, timeout, setName, setId, exprs, flags));
  }

  /** nftnl_expr_parse */
  method ReadExpr(b: bytes) returns (r: Outcome<Expr>)
    ensures r == ParseExpr(b)
    decreases |b|, 2
  {
    var t :- ParseNested(b, EXPR_POLICY);
    if NFTA_EXPR_NAME !in t {
      return Undefined;
    }
    var ops := FindOps(CStr(t[NFTA_EXPR_NAME]));
    if ops.None? {
      return Rejected;
    }
    r := Ok(Fresh(ops.value));
    if NFTA_EXPR_DATA in t {
      var data := t[NFTA_EXPR_DATA];
      match ops.value
      case OpsImmediate => r := ReadImmediate(data);
      case OpsCmp => r := ReadCmp(data);
      case OpsLookup => r := ReadLookup(data);
      case OpsBitwise => r := ReadBitwise(data);
      case OpsDynset => r := ReadDynset(data);
      case OpsNotrack =>
    }
  }
}
