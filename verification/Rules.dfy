/** Rules: the attributes of a rule message, the builder that writes them and the
    parser that reads them into a rule that may already hold something. */
module Rules {
  import opened Wrappers
  import opened Bytes
  import opened Netlink
  import opened Messages
  import opened Exprs
  import opened ExprBuild
  import opened ExprParse

  const NFTA_RULE_TABLE := 1
  const NFTA_RULE_CHAIN := 2
  const NFTA_RULE_HANDLE := 3
  const NFTA_RULE_EXPRESSIONS := 4
  const NFTA_RULE_COMPAT := 5
  const NFTA_RULE_POSITION := 6
  const NFTA_RULE_USERDATA := 7
  const NFTA_RULE_ID := 9
  const NFTA_RULE_POSITION_ID := 10
  const NFTA_RULE_MAX := 11
  const RULE_POLICY := Policy(NFTA_RULE_MAX, NFTA_RULE_MAX,
    [Unchecked, Text, Text, U64, Unchecked, Nested, U64, Unchecked, Unchecked, U32, U32])

  const NFTA_RULE_COMPAT_PROTO := 1
  const NFTA_RULE_COMPAT_FLAGS := 2
  const COMPAT_POLICY := Policy(2, 2, [Unchecked, U32, U32])

  /** The state of a rule: an attribute is present when its flag bit is set. */
  datatype RuleValue = RuleValue(
    family: Option<u32>, table: Option<CString>, chain: Option<CString>, handle: Option<u64>,
    position: Option<u64>, userdata: Option<bytes>, exprs: seq<Expr>,
    compatProto: Option<u32>, compatFlags: Option<u32>, id: Option<u32>, positionId: Option<u32>)

  const FRESH_RULE := RuleValue(None, None, None, None, None, None, [], None, None, None, None)

  function CompatFields(r: RuleValue): seq<Field> {
    [ FieldU32(NFTA_RULE_COMPAT_PROTO, r.compatProto), FieldU32(NFTA_RULE_COMPAT_FLAGS, r.compatFlags) ]
  }

  predicate HasCompat(r: RuleValue) {
    r.compatProto.Some? && r.compatFlags.Some?
  }

  /** The attributes of a rule message, in the order they are written. */
  function RuleFields(r: RuleValue): seq<Field> {
    [ FieldText(NFTA_RULE_TABLE, r.table),
      FieldText(NFTA_RULE_CHAIN, r.chain),
      FieldU64(NFTA_RULE_HANDLE, r.handle),
      FieldU64(NFTA_RULE_POSITION, r.position),
      FieldBytes(NFTA_RULE_USERDATA, r.userdata),
      FieldNest(NFTA_RULE_EXPRESSIONS, if r.exprs != [] then Some(ListAttrs(r.exprs)) else None),
      FieldNest(NFTA_RULE_COMPAT, if HasCompat(r) then Some(Emit(CompatFields(r))) else None),
      FieldU32(NFTA_RULE_ID, r.id),
      FieldU32(NFTA_RULE_POSITION_ID, r.positionId) ]
  }

  function RuleBytes(r: RuleValue): bytes {
    Encode(Emit(RuleFields(r)))
  }

  /** A new value when the message had one, the old one otherwise. */
  function Or<T>(new': Option<T>, old': Option<T>): Option<T> {
    if new'.Some? then new' else old'
  }

  /** What nftnl_rule_nlmsg_parse leaves in a rule that held `r`, and its result.
      After a failure the rule keeps what had been stored by then. */
  function ParseRule(r: RuleValue, family: byte, b: bytes): (RuleValue, Outcome<()>) {
    match ParseTable(b, RULE_POLICY)
    case Ok(t) => RuleOf(r, family, t)
    case Rejected => (r, Rejected)
    case Aborted => (r, Aborted)
    case Undefined => (r, Undefined)
  }

  function RuleHead(r: RuleValue, t: Table): RuleValue
    requires Checked(t, RULE_POLICY)
  {
    r.(table := Or(GetText(t, NFTA_RULE_TABLE), r.table),
       chain := Or(GetText(t, NFTA_RULE_CHAIN), r.chain),
       handle := Or(GetU64(RULE_POLICY, t, NFTA_RULE_HANDLE), r.handle))
  }

  function ParseRuleExprs(t: Table): ListParse {
    if NFTA_RULE_EXPRESSIONS in t then
      var nest := t[NFTA_RULE_EXPRESSIONS];
      WalkShorter(nest);
      ParseList(Walk(nest), |nest|)
    else ListParse([], Ok(()))
  }

  function ParseCompat(r: RuleValue, t: Table): Outcome<RuleValue> {
    if NFTA_RULE_COMPAT in t then
      var c :- ParseTable(t[NFTA_RULE_COMPAT], COMPAT_POLICY);
      Ok(r.(compatProto := Or(GetU32(COMPAT_POLICY, c, NFTA_RULE_COMPAT_PROTO), r.compatProto),
            compatFlags := Or(GetU32(COMPAT_POLICY, c, NFTA_RULE_COMPAT_FLAGS), r.compatFlags)))
    else Ok(r)
  }

  function RuleTail(r: RuleValue, family: byte, t: Table): RuleValue
    requires Checked(t, RULE_POLICY)
  {
    r.(position := Or(GetU64(RULE_POLICY, t, NFTA_RULE_POSITION), r.position),
       userdata := Or(Get(t, NFTA_RULE_USERDATA), r.userdata),
       id := Or(GetU32(RULE_POLICY, t, NFTA_RULE_ID), r.id),
       positionId := Or(GetU32(RULE_POLICY, t, NFTA_RULE_POSITION_ID), r.positionId),
       family := Some(family))
  }

  function RuleOf(r: RuleValue, family: byte, t: Table): (RuleValue, Outcome<()>)
    requires Checked(t, RULE_POLICY)
  {
    var head := RuleHead(r, t);
    var list := ParseRuleExprs(t);
    var withExprs := head.(exprs := r.exprs + list.done);
    if !list.status.Ok? then (withExprs, list.status)
    else
      var compat := ParseCompat(withExprs, t);
      if !compat.Ok? then (withExprs, compat.PropagateFailure())
      else (RuleTail(compat.value, family, t), Ok(()))
  }

  ghost predicate RuleTextsFit(r: RuleValue) {
    && (r.table.Some? ==> |r.table.value| + 5 <= 0xFFFF)
    && (r.chain.Some? ==> |r.chain.value| + 5 <= 0xFFFF)
    && (r.userdata.Some? ==> |r.userdata.value| + NLA_HDRLEN <= 0xFFFF)
    && AllTextsFit(r.exprs)
  }

  class Rule {
    var family: Option<u32>
    var table: Option<CString>
    var chain: Option<CString>
    var handle: Option<u64>
    var position: Option<u64>
    var userdata: Option<bytes>
    var exprs: seq<Expr>
    var compatProto: Option<u32>
    var compatFlags: Option<u32>
    var id: Option<u32>
    var positionId: Option<u32>

    ghost function Value(): RuleValue
      reads this
    {
      RuleValue(family, table, chain, handle, position, userdata, exprs,
                compatProto, compatFlags, id, positionId)
    }

    /** nftnl_rule_alloc */
    constructor ()
      ensures Value() == FRESH_RULE
    {
      family, table, chain, handle, position, userdata := None, None, None, None, None, None;
      exprs, compatProto, compatFlags, id, positionId := [], None, None, None, None;
    }

    /** nftnl_rule_nlmsg_build_payload */
    method BuildPayload(m: Message)
      requires RuleTextsFit(Value())
      requires m.Valid() && m.Room(|RuleBytes(Value())|)
      modifies m`len, m.data
      ensures m.Valid() && m.Contents() == old(m.Contents()) + RuleBytes(Value())
    {
      hide Encode, Emit;
      ghost var c0, fs := m.Contents(), RuleFields(Value());
      BuildStart(c0, fs);
      BuildFields(m, c0, fs);
      BuildDone(m, c0, fs);
    }

    method BuildFields(m: Message, ghost c0: bytes, ghost fs: seq<Field>)
      requires RuleTextsFit(Value()) && FieldsAre(fs)
      requires Building(m, c0, fs, 0)
      modifies m`len, m.data
      ensures Building(m, c0, fs, 9)
    {
      hide Encode, Emit;
      BuildNames(m, c0, fs);
      BuildExpressions(m, c0, fs);
      BuildCompat(m, c0, fs);
      PutU32(m, NFTA_RULE_ID, id, c0, fs, 7);
      PutU32(m, NFTA_RULE_POSITION_ID, positionId, c0, fs, 8);
    }

    /** `fs` is the field list of this rule, entry by entry. */
    ghost predicate FieldsAre(fs: seq<Field>)
      reads this
    {
      && |fs| == 9
      && fs[0] == FieldText(NFTA_RULE_TABLE, table)
      && fs[1] == FieldText(NFTA_RULE_CHAIN, chain)
      && fs[2] == FieldU64(NFTA_RULE_HANDLE, handle)
      && fs[3] == FieldU64(NFTA_RULE_POSITION, position)
      && fs[4] == FieldBytes(NFTA_RULE_USERDATA, userdata)
      && fs[5] == FieldNest(NFTA_RULE_EXPRESSIONS, if exprs != [] then Some(ListAttrs(exprs)) else None)
      && fs[6] == FieldNest(NFTA_RULE_COMPAT,
                    if HasCompat(Value()) then Some(Emit(CompatFields(Value()))) else None)
      && fs[7] == FieldU32(NFTA_RULE_ID, id)
      && fs[8] == FieldU32(NFTA_RULE_POSITION_ID, positionId)
    }

    method BuildNames(m: Message, ghost c0: bytes, ghost fs: seq<Field>)
      requires RuleTextsFit(Value()) && FieldsAre(fs)
      requires Building(m, c0, fs, 0)
      modifies m`len, m.data
      ensures Building(m, c0, fs, 5)
    {
      hide Encode, Emit;
      PutText(m, NFTA_RULE_TABLE, table, c0, fs, 0);
      PutText(m, NFTA_RULE_CHAIN, chain, c0, fs, 1);
      PutU64(m, NFTA_RULE_HANDLE, handle, c0, fs, 2);
      PutU64(m, NFTA_RULE_POSITION, position, c0, fs, 3);
      PutField(m, FieldBytes(NFTA_RULE_USERDATA, userdata), c0, fs, 4);
    }

    method BuildExpressions(m: Message, ghost c0: bytes, ghost fs: seq<Field>)
      requires AllTextsFit(exprs) && FieldsAre(fs)
      requires Building(m, c0, fs, 5)
      modifies m`len, m.data
      ensures Building(m, c0, fs, 6)
    {
      hide Encode, Emit;
      ghost var c := m.Contents();
      BuildStep(c0, fs, 5, c, c + Encode(EmitOne(fs[5])));
      if exprs != [] {
        ghost var attrs := ListAttrs(exprs);
        NestField(NFTA_RULE_EXPRESSIONS, attrs);
        var nest := m.NestStart(NFTA_RULE_EXPRESSIONS);
        OpenNestAppend(c, NFTA_RULE_EXPRESSIONS, [], m.Contents(), Encode(attrs));
        BuildList(m, exprs);
        CloseNest(c, NFTA_RULE_EXPRESSIONS, attrs, m.Contents());
        m.NestEnd(nest);
      } else {
        SkipStep(m, c0, fs, 5);
      }
    }

    method BuildCompat(m: Message, ghost c0: bytes, ghost fs: seq<Field>)
      requires FieldsAre(fs)
      requires Building(m, c0, fs, 6)
      modifies m`len, m.data
      ensures Building(m, c0, fs, 7)
    {
      hide Encode, Emit;
      ghost var c, cfs := m.Contents(), CompatFields(Value());
      BuildStep(c0, fs, 6, c, c + Encode(EmitOne(fs[6])));
      if compatProto.Some? && compatFlags.Some? {
        NestField(NFTA_RULE_COMPAT, Emit(cfs));
        var nest := m.NestStart(NFTA_RULE_COMPAT);
        ghost var c1 := m.Contents();
        BuildStart(c1, cfs);
        PutU32(m, NFTA_RULE_COMPAT_PROTO, compatProto, c1, cfs, 0);
        PutU32(m, NFTA_RULE_COMPAT_FLAGS, compatFlags, c1, cfs, 1);
        BuildDone(m, c1, cfs);
        OpenNestAppend(c, NFTA_RULE_COMPAT, [], c1, Encode(Emit(cfs)));
        CloseNest(c, NFTA_RULE_COMPAT, Emit(cfs), m.Contents());
        m.NestEnd(nest);
      } else {
        SkipStep(m, c0, fs, 6);
      }
    }

    /** nftnl_rule_nlmsg_parse: `b` is the attribute area behind the nfgenmsg
        header, which carries the family. */
    method NlmsgParse(nfgenFamily: byte, b: bytes) returns (r: Outcome<()>)
      modifies this
      ensures (Value(), r) == ParseRule(old(Value()), nfgenFamily, b)
    {
      var parsed := ParseNested(b, RULE_POLICY);
      if !parsed.Ok? {
        return parsed.PropagateFailure();
      }
      var t := parsed.value;
      ReadHead(t);
      r := ReadExprs(t);
      if r.Ok? {
        r := ReadCompat(t);
        if r.Ok? {
          ReadTail(nfgenFamily, t);
        }
      }
    }

    method ReadHead(t: Table)
      requires Checked(t, RULE_POLICY)
      modifies this
      ensures Value() == RuleHead(old(Value()), t)
    {
      if NFTA_RULE_TABLE in t {
        table := Some(CStr(t[NFTA_RULE_TABLE]));
      }
      if NFTA_RULE_CHAIN in t {
        chain := Some(CStr(t[NFTA_RULE_CHAIN]));
      }
      if NFTA_RULE_HANDLE in t {
        handle := GetU64(RULE_POLICY, t, NFTA_RULE_HANDLE);
      }
    }

    /** nftnl_rule_parse_expr: what parses before a failure stays in the list. */
    method ReadExprs(t: Table) returns (r: Outcome<()>)
      modifies this`exprs
      ensures exprs == old(exprs) + ParseRuleExprs(t).done && r == ParseRuleExprs(t).status
    {
      r := Ok(());
      if NFTA_RULE_EXPRESSIONS in t {
        var list := ReadList(t[NFTA_RULE_EXPRESSIONS]);
        exprs := exprs + list.done;
        r := list.status;
      }
    }

    /** nftnl_rule_parse_compat */
    method ReadCompat(t: Table) returns (r: Outcome<()>)
      modifies this`compatProto, this`compatFlags
      ensures var p := ParseCompat(old(Value()), t);
              if p.Ok? then r == Ok(()) && Value() == p.value
              else r == p.PropagateFailure<()>() && Value() == old(Value())
    {
      if NFTA_RULE_COMPAT in t {
        var parsed := ParseNested(t[NFTA_RULE_COMPAT], COMPAT_POLICY);
        if !parsed.Ok? {
          return parsed.PropagateFailure();
        }
        var c := parsed.value;
        if NFTA_RULE_COMPAT_PROTO in c {
          compatProto := GetU32(COMPAT_POLICY, c, NFTA_RULE_COMPAT_PROTO);
        }
        if NFTA_RULE_COMPAT_FLAGS in c {
          compatFlags := GetU32(COMPAT_POLICY, c, NFTA_RULE_COMPAT_FLAGS);
        }
      }
      r := Ok(());
    }

    method ReadTail(nfgenFamily: byte, t: Table)
      requires Checked(t, RULE_POLICY)
      modifies this
      ensures Value() == RuleTail(old(Value()), nfgenFamily, t)
    {
      if NFTA_RULE_POSITION in t {
        position := GetU64(RULE_POLICY, t, NFTA_RULE_POSITION);
      }
      if NFTA_RULE_USERDATA in t {
        userdata := Some(t[NFTA_RULE_USERDATA]);
      }
      if NFTA_RULE_ID in t {
        id := GetU32(RULE_POLICY, t, NFTA_RULE_ID);
      }
      if NFTA_RULE_POSITION_ID in t {
        positionId := GetU32(RULE_POLICY, t, NFTA_RULE_POSITION_ID);
      }
      family := Some(nfgenFamily);
    }
  }
}
