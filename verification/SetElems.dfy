/** Set elements: the attributes of one element, its builder, its parser, and the
    loop that parses a list of them into a set. */
module SetElems {
  import opened Wrappers
  import opened Bytes
  import opened Netlink
  import opened Messages
  import opened Exprs
  import opened ExprBuild
  import opened ExprParse

  const NFTA_SET_ELEM_KEY := 1
  const NFTA_SET_ELEM_DATA := 2
  const NFTA_SET_ELEM_FLAGS := 3
  const NFTA_SET_ELEM_TIMEOUT := 4
  const NFTA_SET_ELEM_EXPIRATION := 5
  const NFTA_SET_ELEM_USERDATA := 6
  const NFTA_SET_ELEM_EXPR := 7
  const NFTA_SET_ELEM_OBJREF := 9
  const NFTA_SET_ELEM_KEY_END := 10
  const NFTA_SET_ELEM_EXPRESSIONS := 11
  const NFTA_SET_ELEM_MAX := 11

  /** The callback compares with NFTA_SET_MAX, the table has NFTA_SET_ELEM_MAX + 1
      entries. */
  const SET_ELEM_POLICY := Policy(NFTA_SET_MAX, NFTA_SET_ELEM_MAX,
    [Unchecked, Nested, Nested, U32, U64, U64, Unchecked, Nested, Unchecked, Unchecked, Nested, Nested])

  /** An element: an attribute is present when its flag bit is set.  In C, value,
      verdict and chain share one union. */
  datatype SetElem = SetElem(
    flags: Option<u32>, timeout: Option<u64>, expiration: Option<u64>,
    key: Option<RegValue>, keyEnd: Option<RegValue>,
    verdict: Option<u32>, chain: Option<CString>, data: Option<RegValue>,
    userdata: Option<bytes>, objref: Option<CString>, exprs: seq<Expr>)

  function ElemFields(e: SetElem): seq<Field> {
    [ FieldU32(NFTA_SET_ELEM_FLAGS, e.flags),
      FieldU64(NFTA_SET_ELEM_TIMEOUT, e.timeout),
      FieldU64(NFTA_SET_ELEM_EXPIRATION, e.expiration),
      FieldValue(NFTA_SET_ELEM_KEY, e.key),
      FieldValue(NFTA_SET_ELEM_KEY_END, e.keyEnd),
      FieldNest(NFTA_SET_ELEM_DATA,
        if e.verdict.Some? then Some(VerdictAttrs(e.verdict.value, e.chain, None)) else None),
      FieldValue(NFTA_SET_ELEM_DATA, e.data),
      FieldBytes(NFTA_SET_ELEM_USERDATA, e.userdata),
      FieldText(NFTA_SET_ELEM_OBJREF, e.objref),
      FieldNest(NFTA_SET_ELEM_EXPR, if |e.exprs| == 1 then Some(ExprAttrs(e.exprs[0])) else None),
      FieldNest(NFTA_SET_ELEM_EXPRESSIONS, if |e.exprs| > 1 then Some(ListAttrs(e.exprs)) else None) ]
  }

  function ElemAttrs(e: SetElem): seq<Attr> {
    Emit(ElemFields(e))
  }

  // ---------- building ----------

  ghost predicate ElemTextsFit(e: SetElem) {
    && (e.chain.Some? ==> |e.chain.value| + 5 <= 0xFFFF)
    && (e.userdata.Some? ==> |e.userdata.value| + NLA_HDRLEN <= 0xFFFF)
    && (e.objref.Some? ==> |e.objref.value| + 5 <= 0xFFFF)
    && AllTextsFit(e.exprs)
  }

  /** `fs` is the field list of `e`, entry by entry. */
  ghost predicate ElemFieldsAre(e: SetElem, fs: seq<Field>) {
    && |fs| == 11
    && fs[0] == FieldU32(NFTA_SET_ELEM_FLAGS, e.flags)
    && fs[1] == FieldU64(NFTA_SET_ELEM_TIMEOUT, e.timeout)
    && fs[2] == FieldU64(NFTA_SET_ELEM_EXPIRATION, e.expiration)
    && fs[3] == FieldValue(NFTA_SET_ELEM_KEY, e.key)
    && fs[4] == FieldValue(NFTA_SET_ELEM_KEY_END, e.keyEnd)
    && fs[5] == FieldNest(NFTA_SET_ELEM_DATA,
                  if e.verdict.Some? then Some(VerdictAttrs(e.verdict.value, e.chain, None)) else None)
    && fs[6] == FieldValue(NFTA_SET_ELEM_DATA, e.data)
    && fs[7] == FieldBytes(NFTA_SET_ELEM_USERDATA, e.userdata)
    && fs[8] == FieldText(NFTA_SET_ELEM_OBJREF, e.objref)
    && fs[9] == FieldNest(NFTA_SET_ELEM_EXPR, if |e.exprs| == 1 then Some(ExprAttrs(e.exprs[0])) else None)
    && fs[10] == FieldNest(NFTA_SET_ELEM_EXPRESSIONS, if |e.exprs| > 1 then Some(ListAttrs(e.exprs)) else None)
  }

  method BuildKeys(m: Message, e: SetElem, ghost c0: bytes, ghost fs: seq<Field>)
    requires ElemFieldsAre(e, fs) && Building(m, c0, fs, 0)
    modifies m`len, m.data
    ensures Building(m, c0, fs, 5)
  {
    hide Encode, Emit;
    PutU32(m, NFTA_SET_ELEM_FLAGS, e.flags, c0, fs, 0);
    PutU64(m, NFTA_SET_ELEM_TIMEOUT, e.timeout, c0, fs, 1);
    PutU64(m, NFTA_SET_ELEM_EXPIRATION, e.expiration, c0, fs, 2);
    PutValue(m, NFTA_SET_ELEM_KEY, e.key, c0, fs, 3);
    PutValue(m, NFTA_SET_ELEM_KEY_END, e.keyEnd, c0, fs, 4);
  }

  method BuildElemData(m: Message, e: SetElem, ghost c0: bytes, ghost fs: seq<Field>)
    requires ElemFieldsAre(e, fs) && ElemTextsFit(e) && Building(m, c0, fs, 5)
    modifies m`len, m.data
    ensures Building(m, c0, fs, 7)
  {
    hide Encode, Emit;
    if e.verdict.Some? {
      ghost var c := m.Contents();
      BuildStep(c0, fs, 5, c, c + Encode(EmitOne(fs[5])));
      NestField(NFTA_SET_ELEM_DATA, VerdictAttrs(e.verdict.value, e.chain, None));
      PutVerdict(m, NFTA_SET_ELEM_DATA, e.verdict.value, e.chain, None);
    } else {
      SkipStep(m, c0, fs, 5);
    }
    PutValue(m, NFTA_SET_ELEM_DATA, e.data, c0, fs, 6);
  }

  /** nftnl_set_elem_nlmsg_build_payload */
  method BuildElemPayload(m: Message, e: SetElem)
    requires ElemTextsFit(e)
    requires m.Valid() && m.Room(|Encode(ElemAttrs(e))|)
    modifies m`len, m.data
    ensures m.Valid() && m.Contents() == old(m.Contents()) + Encode(ElemAttrs(e))
  {
    hide Encode, Emit;
    ghost var c0, fs := m.Contents(), ElemFields(e);
    BuildStart(c0, fs);
    BuildKeys(m, e, c0, fs);
    BuildElemData(m, e, c0, fs);
    PutField(m, FieldBytes(NFTA_SET_ELEM_USERDATA, e.userdata), c0, fs, 7);
    PutText(m, NFTA_SET_ELEM_OBJREF, e.objref, c0, fs, 8);
    BuildBareExpr(m, NFTA_SET_ELEM_EXPR, e.exprs, c0, fs, 9);
    BuildExprList(m, NFTA_SET_ELEM_EXPRESSIONS, e.exprs, c0, fs, 10);
    BuildDone(m, c0, fs);
  }

  /** The nest around element number `i` of a list. */
  function ElemNest(e: SetElem, i: nat): Attr {
    Attr(NestType(i), Encode(ElemAttrs(e)))
  }

  /** nftnl_set_elem_nlmsg_build: the nest of one element; returns where it starts. */
  method BuildElem(m: Message, e: SetElem, i: nat) returns (nest: nat)
    requires ElemTextsFit(e)
    requires m.Valid() && m.Room(|AttrBytes(ElemNest(e, i))|)
    modifies m`len, m.data
    ensures nest == |old(m.Contents())|
    ensures m.Valid() && m.Contents() == old(m.Contents()) + AttrBytes(ElemNest(e, i))
  {
    hide Encode, Emit;
    ghost var c := m.Contents();
    NestField(i, ElemAttrs(e));
    nest := m.NestStart(i);
    OpenNestAppend(c, i, [], m.Contents(), Encode(ElemAttrs(e)));
    BuildElemPayload(m, e);
    CloseNest(c, i, ElemAttrs(e), m.Contents());
    m.NestEnd(nest);
  }

  /** The nests of the elements of a list, numbered from `i`. */
  function ElemNests(es: seq<SetElem>, i: nat): seq<Attr> {
    seq(|es|, k requires 0 <= k < |es| => ElemNest(es[k], i + k))
  }

  // ---------- parsing ----------

  /** One of the two keys. */
  function ParseKey(t: Table, typ: nat): Outcome<Option<DataParse>> {
    if typ !in t then Ok(None)
    else
      var d :- ParseData(t[typ]);
      if !d.ok then Rejected else Ok(Some(d))
  }

  /** The value of `*type` after a call that may or may not have written it. */
  function KindAfter(d: Option<DataParse>, before: Option<RegKind>): Option<RegKind> {
    if d.Some? && d.value.kind.Some? then d.value.kind else before
  }

  /** `nullChain`: the element is marked as having a chain, but its pointer is null. */
  datatype ElemData = ElemData(verdict: Option<u32>, chain: Option<CString>, data: Option<RegValue>, nullChain: bool)

  /** The data of an element.  When the nest is empty the kind is the one left by
      the keys. */
  function ParseElemData(t: Table, kindBefore: Option<RegKind>): Outcome<ElemData> {
    if NFTA_SET_ELEM_DATA !in t then Ok(ElemData(None, None, None, false))
    else
      var d :- ParseData(t[NFTA_SET_ELEM_DATA]);
      if !d.ok then Rejected
      else match KindAfter(Some(d), kindBefore)
        case None => Undefined
        case Some(DataValue) => Ok(ElemData(None, None, d.val, false))
        case Some(DataVerdict) => Ok(ElemData(Some(d.verdict), None, None, false))
        case Some(DataChain) => Ok(ElemData(Some(d.verdict), d.chain, None, d.chain.None?))
  }

  function ParseElemExprs(t: Table): Outcome<seq<Expr>> {
    if NFTA_SET_ELEM_EXPR in t then
      var e :- ParseExpr(t[NFTA_SET_ELEM_EXPR]);
      Ok([e])
    else if NFTA_SET_ELEM_EXPRESSIONS in t then
      var nest := t[NFTA_SET_ELEM_EXPRESSIONS];
      WalkShorter(nest);
      ParseList(Walk(nest), |nest|).All()
    else Ok([])
  }

  function ElemOf(t: Table): Outcome<SetElem>
    requires Checked(t, SET_ELEM_POLICY)
  {
    var key :- ParseKey(t, NFTA_SET_ELEM_KEY);
    var keyEnd :- ParseKey(t, NFTA_SET_ELEM_KEY_END);
    var data :- ParseElemData(t, KindAfter(keyEnd, KindAfter(key, None)));
    var exprs :- ParseElemExprs(t);
    if HoldsPointer(key) || HoldsPointer(keyEnd) || data.nullChain then Undefined
    else Ok(SetElem(GetU32(SET_ELEM_POLICY, t, NFTA_SET_ELEM_FLAGS),
               GetU64(SET_ELEM_POLICY, t, NFTA_SET_ELEM_TIMEOUT),
               GetU64(SET_ELEM_POLICY, t, NFTA_SET_ELEM_EXPIRATION),
               RegisterValue(key), RegisterValue(keyEnd), data.verdict, data.chain, data.data,
               Get(t, NFTA_SET_ELEM_USERDATA), GetText(t, NFTA_SET_ELEM_OBJREF), exprs))
  }

  /** The element that nftnl_set_elems_parse2 adds to its set. */
  function ParseElem(b: bytes): Outcome<SetElem> {
    var t :- ParseTable(b, SET_ELEM_POLICY);
    ElemOf(t)
  }

  /** Parsing an element writes outside its table of 12 entries exactly when the first
      attribute that is neither skipped nor stored has a type from 12 to 18. */
  lemma ElemTableOverruns(b: bytes)
    ensures ParseTable(b, SET_ELEM_POLICY) == Undefined <==>
      exists i: nat :: i < |Walk(b)| && NFTA_SET_ELEM_MAX < TypeOf(Walk(b)[i]) <= NFTA_SET_MAX
        && forall j :: 0 <= j < i ==> Handled(Walk(b)[j], SET_ELEM_POLICY)
  {
    var attrs := Walk(b);
    CollectOverruns(attrs, SET_ELEM_POLICY);
    forall i: nat
      ensures OverrunAt(attrs, SET_ELEM_POLICY, i) <==>
        i < |attrs| && NFTA_SET_ELEM_MAX < TypeOf(attrs[i]) <= NFTA_SET_MAX
        && forall j :: 0 <= j < i ==> Handled(attrs[j], SET_ELEM_POLICY)
    {
    }
  }

  /** Any attribute of such a type, alone, does it: the shortest is a bare header. */
  lemma OneAttributeOverruns(a: Attr)
    requires NFTA_SET_ELEM_MAX < TypeOf(a) <= NFTA_SET_MAX && NLA_HDRLEN + |a.payload| <= 0xFFFF
    ensures ParseElem(Encode([a])) == Undefined
  {
    hide Encode;
    WalkEncode([a]);
    ElemTableOverruns(Encode([a]));
    assert Walk(Encode([a]))[0] == a;
  }

  lemma BareHeaderOverruns()
    ensures ParseElem(Encode([Attr(12, [])])) == Undefined
  {
    OneAttributeOverruns(Attr(12, []));
  }

  /** The elements a list loop appended before it ended, and how it ended. */
  datatype ElemsParse = ElemsParse(done: seq<SetElem>, status: Outcome<()>)

  function ParseElems(attrs: seq<Attr>): ElemsParse {
    if attrs == [] then ElemsParse([], Ok(()))
    else if TypeOf(attrs[0]) != NFTA_LIST_ELEM then ElemsParse([], Rejected)
    else
      var e := ParseElem(attrs[0].payload);
      if !e.Ok? then ElemsParse([], e.PropagateFailure())
      else
        var rest := ParseElems(attrs[1..]);
        ElemsParse([e.value] + rest.done, rest.status)
  }

  method ReadKey(t: Table, typ: nat) returns (r: Outcome<Option<DataParse>>)
    ensures r == ParseKey(t, typ)
  {
    if typ !in t {
      return Ok(None);
    }
    var d :- ReadData(t[typ]);
    if !d.ok {
      return Rejected;
    }
    r := Ok(Some(d));
  }

  method ReadElemData(t: Table, kindBefore: Option<RegKind>) returns (r: Outcome<ElemData>)
    ensures r == ParseElemData(t, kindBefore)
  {
    if NFTA_SET_ELEM_DATA !in t {
      return Ok(ElemData(None, None, None, false));
    }
    var d :- ReadData(t[NFTA_SET_ELEM_DATA]);
    if !d.ok {
      return Rejected;
    }
    match KindAfter(Some(d), kindBefore)
    case None => r := Undefined;
    case Some(DataValue) => r := Ok(ElemData(None, None, d.val, false));
    case Some(DataVerdict) => r := Ok(ElemData(Some(d.verdict), None, None, false));
    case Some(DataChain) => r := Ok(ElemData(Some(d.verdict), d.chain, None, d.chain.None?));
  }

  method ReadElemExprs(t: Table) returns (r: Outcome<seq<Expr>>)
    ensures r == ParseElemExprs(t)
  {
    if NFTA_SET_ELEM_EXPR in t {
      var e :- ReadExpr(t[NFTA_SET_ELEM_EXPR]);
      r := Ok([e]);
    } else if NFTA_SET_ELEM_EXPRESSIONS in t {
      var list := ReadList(t[NFTA_SET_ELEM_EXPRESSIONS]);
      r := list.All();
    } else {
      r := Ok([]);
    }
  }

  /** What the element functions use of a set: its names and its element list. */
  class ElemSet {
    var name: Option<CString>
    var table: Option<CString>
    var id: Option<u32>
    var elements: seq<SetElem>

    constructor ()
      ensures name == table == None && id == None && elements == []
    {
      name, table, id, elements := None, None, None, [];
    }

    /** nftnl_set_elems_parse2: parses one element and appends it. */
    method Parse2(b: bytes) returns (r: Outcome<()>)
      modifies this`elements
      ensures match ParseElem(b)
              case Ok(e) => r == Ok(()) && elements == old(elements) + [e]
              case Rejected => r == Rejected && elements == old(elements)
              case Aborted => r == Aborted && elements == old(elements)
              case Undefined => r == Undefined && elements == old(elements)
    {
      var t :- ParseNested(b, SET_ELEM_POLICY);
      var flags := GetU32(SET_ELEM_POLICY, t, NFTA_SET_ELEM_FLAGS);
      var timeout := GetU64(SET_ELEM_POLICY, t, NFTA_SET_ELEM_TIMEOUT);
      var expiration := GetU64(SET_ELEM_POLICY, t, NFTA_SET_ELEM_EXPIRATION);
      var key :- ReadKey(t, NFTA_SET_ELEM_KEY);
      var keyEnd :- ReadKey(t, NFTA_SET_ELEM_KEY_END);
      var data :- ReadElemData(t, KindAfter(keyEnd, KindAfter(key, None)));
      var exprs :- ReadElemExprs(t);
      if HoldsPointer(key) || HoldsPointer(keyEnd) || data.nullChain {
        return Undefined;
      }
      var e := SetElem(flags, timeout, expiration, RegisterValue(key), RegisterValue(keyEnd),
                       data.verdict, data.chain, data.data, Get(t, NFTA_SET_ELEM_USERDATA),
                       GetText(t, NFTA_SET_ELEM_OBJREF), exprs);
      elements := elements + [e];
      r := Ok(());
    }

    /** nftnl_set_elems_parse: elements parsed before a failure stay in the set. */
    method ParseAll(b: bytes) returns (r: Outcome<()>)
      modifies this`elements
      ensures elements == old(elements) + ParseElems(Walk(b)).done
      ensures r == ParseElems(Walk(b)).status
    {
      var at := 0;
      ghost var todo, remaining := Walk(b), ParseElems(Walk(b));
      assert Rest(b, 0) == b;
      while AttrAt(b, at).Some?
        invariant todo == Walk(Rest(b, at))
        invariant remaining == ParseElems(todo)
        invariant elements + remaining.done == old(elements) + ParseElems(Walk(b)).done
        invariant remaining.status == ParseElems(Walk(b)).status
        decreases |b| - at
      {
        var (a, next) := AttrAt(b, at).value;
        ghost var rest := Walk(Rest(b, next));
        WalkStep(b, at, a, next, todo, rest);
        ElemsStep(a, rest, todo, elements);
        if TypeOf(a) != NFTA_LIST_ELEM {
          return Rejected;
        }
        r := Parse2(a.payload);
        if !r.Ok? {
          return r;
        }
        at, todo, remaining := next, rest, ParseElems(rest);
      }
      WalkEnd(b, at);
      assert elements + [] == elements;
      r := Ok(());
    }
  }

  lemma ElemsStep(a: Attr, rest: seq<Attr>, todo: seq<Attr>, elements: seq<SetElem>)
    requires todo == [a] + rest
    ensures var p, q, e := ParseElems(todo), ParseElems(rest), ParseElem(a.payload);
            if TypeOf(a) != NFTA_LIST_ELEM then
              elements + p.done == elements && p.status == Rejected
            else if !e.Ok? then
              elements + p.done == elements && p.status == e.PropagateFailure<()>()
            else
              elements + p.done == (elements + [e.value]) + q.done && p.status == q.status
  {
    assert todo[1..] == rest;
    assert elements + [] == elements;
    var e, q := ParseElem(a.payload), ParseElems(rest);
    if TypeOf(a) == NFTA_LIST_ELEM && e.Ok? {
      assert ParseElems(todo) == ElemsParse([e.value] + q.done, q.status);
      assert elements + ([e.value] + q.done) == (elements + [e.value]) + q.done;
    }
  }
}
