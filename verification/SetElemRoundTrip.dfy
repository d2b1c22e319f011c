/** Building a set element and parsing it again; and why a list of elements parses
    only when it has at most one. */
module SetElemRoundTrip {
  import opened Wrappers
  import opened Bytes
  import opened Netlink
  import opened Exprs
  import opened ExprRoundTrip
  import opened SetElems

  /** The data that comes back: a value hides a verdict, and a verdict keeps its
      chain name with jump and goto only. */
  function NormData(e: SetElem): Outcome<ElemData> {
    if e.data.Some? then
      if e.data == Some([]) then Rejected else Ok(ElemData(None, None, e.data, false))
    else if e.verdict.None? then Ok(ElemData(None, None, None, false))
    else if PlainVerdict(e.verdict.value) then Ok(ElemData(e.verdict, None, None, false))
    else if JumpVerdict(e.verdict.value) && e.chain.Some? then Ok(ElemData(e.verdict, e.chain, None, false))
    else Rejected
  }

  function NormElem(e: SetElem): Outcome<SetElem> {
    if e.key == Some([]) || e.keyEnd == Some([]) then Rejected
    else
      var data :- NormData(e);
      var exprs :- NormAll(e.exprs);
      Ok(e.(verdict := data.verdict, chain := data.chain, data := data.data, exprs := exprs))
  }

  /** Elements the encoding can carry. */
  predicate CanonicalElem(e: SetElem) {
    e.key != Some([]) && e.keyEnd != Some([]) && AllCanonical(e.exprs)
    && (if e.data.Some? then e.data != Some([]) && e.verdict.None? && e.chain.None?
        else if e.verdict.None? then e.chain.None?
        else if e.chain.Some? then JumpVerdict(e.verdict.value)
        else PlainVerdict(e.verdict.value))
  }

  function DataPayload(e: SetElem): Option<bytes> {
    if e.data.Some? then Some(Encode(ValueAttrs(e.data.value)))
    else if e.verdict.Some? then Some(Encode(VerdictAttrs(e.verdict.value, e.chain, None)))
    else None
  }

  ghost predicate TableOf(t: Table, e: SetElem) {
    && Checked(t, SET_ELEM_POLICY)
    && Get(t, NFTA_SET_ELEM_FLAGS) == FieldU32(NFTA_SET_ELEM_FLAGS, e.flags).payload
    && Get(t, NFTA_SET_ELEM_TIMEOUT) == FieldU64(NFTA_SET_ELEM_TIMEOUT, e.timeout).payload
    && Get(t, NFTA_SET_ELEM_EXPIRATION) == FieldU64(NFTA_SET_ELEM_EXPIRATION, e.expiration).payload
    && Get(t, NFTA_SET_ELEM_KEY) == FieldValue(NFTA_SET_ELEM_KEY, e.key).payload
    && Get(t, NFTA_SET_ELEM_KEY_END) == FieldValue(NFTA_SET_ELEM_KEY_END, e.keyEnd).payload
    && Get(t, NFTA_SET_ELEM_DATA) == DataPayload(e)
    && Get(t, NFTA_SET_ELEM_USERDATA) == e.userdata
    && Get(t, NFTA_SET_ELEM_OBJREF) == FieldText(NFTA_SET_ELEM_OBJREF, e.objref).payload
    && Get(t, NFTA_SET_ELEM_EXPR) == (if |e.exprs| == 1 then Some(Encode(ExprAttrs(e.exprs[0]))) else None)
    && Get(t, NFTA_SET_ELEM_EXPRESSIONS) == (if |e.exprs| > 1 then Some(Encode(ListAttrs(e.exprs))) else None)
  }

  lemma ElemConforms(e: SetElem)
    ensures forall f <- ElemFields(e) :: Conforms(f, SET_ELEM_POLICY)
  {
    var fs := ElemFields(e);
    if e.key.Some? { TableNested(ValueAttrs(e.key.value)); }
    if e.keyEnd.Some? { TableNested(ValueAttrs(e.keyEnd.value)); }
    if e.data.Some? { TableNested(ValueAttrs(e.data.value)); }
    if e.verdict.Some? { TableNested(VerdictAttrs(e.verdict.value, e.chain, None)); }
    if |e.exprs| == 1 { TableNested(ExprAttrs(e.exprs[0])); }
    if |e.exprs| > 1 { TableNested(ListAttrs(e.exprs)); }
    hide Encode, Emit, ListAttrs, ExprAttrs;
    forall i | 0 <= i < |fs| ensures Conforms(fs[i], SET_ELEM_POLICY) {
    }
  }

  /** The data attribute is written twice when both a verdict and a value are set;
      the value comes second. */
  lemma DataIsLast(e: SetElem)
    ensures LastOf(ElemFields(e), NFTA_SET_ELEM_DATA) == DataPayload(e)
  {
    hide Encode, Emit, ListAttrs, ExprAttrs;
    var fs := ElemFields(e);
    if e.data.Some? {
      LastOfLatest(fs, 6);
    } else if e.verdict.Some? {
      LastOfLatest(fs, 5);
    } else {
      LastOfAbsent(fs, NFTA_SET_ELEM_DATA);
    }
  }

  lemma OtherFields(e: SetElem, i: nat)
    requires i < 11 && i != 5 && i != 6
    ensures LastOf(ElemFields(e), ElemFields(e)[i].typ) == ElemFields(e)[i].payload
  {
    hide Encode, Emit, ListAttrs, ExprAttrs;
    LastOfAlone(ElemFields(e), i);
  }

  lemma ElemTable(e: SetElem)
    requires |Encode(ElemAttrs(e))| <= 0xFFFF
    ensures ParseTable(Encode(ElemAttrs(e)), SET_ELEM_POLICY).Ok?
    ensures TableOf(ParseTable(Encode(ElemAttrs(e)), SET_ELEM_POLICY).value, e)
  {
    hide Encode, Emit, ListAttrs, ExprAttrs;
    var fs := ElemFields(e);
    FitsInside(Emit(fs));
    WalkEncode(Emit(fs));
    ElemConforms(e);
    CollectEmit(fs, SET_ELEM_POLICY);
    DataIsLast(e);
    OtherFields(e, 0);
    OtherFields(e, 1);
    OtherFields(e, 2);
    OtherFields(e, 3);
    OtherFields(e, 4);
    OtherFields(e, 7);
    OtherFields(e, 8);
    OtherFields(e, 9);
    OtherFields(e, 10);
  }

  lemma BuiltKey(t: Table, typ: nat, v: Option<RegValue>)
    requires Get(t, typ) == FieldValue(typ, v).payload
    ensures v == Some([]) ==> ParseKey(t, typ) == Rejected
    ensures v != Some([]) ==> ParseKey(t, typ) == Ok(if v.Some? then Some(ValueResult(v.value)) else None)
  {
    if v.Some? {
      ParseDataValue(v.value);
    }
  }

  lemma BuiltData(t: Table, e: SetElem, kindBefore: Option<RegKind>)
    requires Get(t, NFTA_SET_ELEM_DATA) == DataPayload(e)
    requires NFTA_SET_ELEM_DATA in t ==> |t[NFTA_SET_ELEM_DATA]| <= 0xFFFF
    ensures ParseElemData(t, kindBefore) == NormData(e)
  {
    hide Encode, Walk, ParseData;
    if e.data.Some? {
      ParseDataValue(e.data.value);
    } else if e.verdict.Some? {
      ParseDataVerdict(e.verdict.value, e.chain, None);
    }
  }

  lemma BuiltElemExprs(t: Table, es: seq<Expr>)
    requires Get(t, NFTA_SET_ELEM_EXPR) == (if |es| == 1 then Some(Encode(ExprAttrs(es[0]))) else None)
    requires Get(t, NFTA_SET_ELEM_EXPRESSIONS) == (if |es| > 1 then Some(Encode(ListAttrs(es))) else None)
    requires forall k <- t :: |t[k]| <= 0xFFFF
    ensures ParseElemExprs(t) == NormAll(es)
  {
    hide Encode, Emit, Walk, ExprAttrs, ParseExpr, ParseList;
    if |es| == 1 {
      ParseBuiltExpr(es[0]);
      NormOne(es[0]);
      assert es == [es[0]];
    } else if |es| > 1 {
      BuiltNest(es, t[NFTA_SET_ELEM_EXPRESSIONS]);
    }
  }

  lemma NormOne(e: Expr)
    ensures NormAll([e]) == if Norm(e).Ok? then Ok([Norm(e).value]) else Rejected
  {
    hide Norm;
    NormAllCons([e]);
    NormOrRejected(e);
    if Norm(e).Ok? {
      assert [Norm(e).value] + [] == [Norm(e).value];
    }
  }

  lemma BuiltNest(es: seq<Expr>, nest: bytes)
    requires nest == Encode(ListAttrs(es)) && |nest| <= 0xFFFF
    ensures forall a <- Walk(nest) :: |a.payload| < |nest|
    ensures ParseList(Walk(nest), |nest|).All() == NormAll(es)
  {
    hide Encode, Emit, Walk, ParseList, NormAll;
    var attrs := ListAttrs(es);
    FitsInside(attrs);
    WalkEncode(attrs);
    WalkShorter(nest);
    ParseBuiltList(es, attrs, |nest|);
  }

  /** Parsing a built element gives its normal form: key, key end, timeouts, user
      data, object reference, expressions, and value, verdict or chain. */
  lemma ParseBuiltElem(e: SetElem)
    requires |Encode(ElemAttrs(e))| <= 0xFFFF
    ensures ParseElem(Encode(ElemAttrs(e))) == NormElem(e)
  {
    ElemTable(e);
    BuiltElemOf(e, ParseTable(Encode(ElemAttrs(e)), SET_ELEM_POLICY).value);
  }

  lemma NoNullChain(e: SetElem)
    ensures NormData(e).Ok? ==> !NormData(e).value.nullChain
  {
  }

  lemma BuiltElemOf(e: SetElem, t: Table)
    requires TableOf(t, e)
    requires forall k <- t :: |t[k]| <= 0xFFFF
    ensures ElemOf(t) == NormElem(e)
  {
    hide Encode, Walk, ParseElemExprs, ParseElemData, NormAll, NormData, ParseKey, ParseData;
    BuiltKey(t, NFTA_SET_ELEM_KEY, e.key);
    BuiltKey(t, NFTA_SET_ELEM_KEY_END, e.keyEnd);
    var key, keyEnd := ParseKey(t, NFTA_SET_ELEM_KEY), ParseKey(t, NFTA_SET_ELEM_KEY_END);
    if key.Ok? && keyEnd.Ok? {
      BuiltData(t, e, KindAfter(keyEnd.value, KindAfter(key.value, None)));
    }
    NoNullChain(e);
    BuiltElemExprs(t, e.exprs);
    ReadU32(SET_ELEM_POLICY, t, NFTA_SET_ELEM_FLAGS, e.flags);
    ReadU64(SET_ELEM_POLICY, t, NFTA_SET_ELEM_TIMEOUT, e.timeout);
    ReadU64(SET_ELEM_POLICY, t, NFTA_SET_ELEM_EXPIRATION, e.expiration);
    ReadText(t, NFTA_SET_ELEM_OBJREF, e.objref);
  }

  /** The round trip of one element holds exactly for the canonical ones. */
  lemma ElemRoundTrip(e: SetElem)
    requires |Encode(ElemAttrs(e))| <= 0xFFFF
    ensures ParseElem(Encode(ElemAttrs(e))) == Ok(e) <==> CanonicalElem(e)
  {
    hide ParseElem, NormElem, CanonicalElem;
    ParseBuiltElem(e);
    NormElemIsIdentity(e);
  }

  /** Elements whose built form the parser accepts. */
  predicate AcceptedElem(e: SetElem) {
    && e.key != Some([]) && e.keyEnd != Some([]) && AllAccepted(e.exprs)
    && if e.data.Some? then e.data != Some([])
       else e.verdict.Some? ==> AcceptedVerdict(e.verdict.value, e.chain)
  }

  /** Parsing a built element succeeds exactly for the accepted ones, and is refused for
      all others. */
  lemma BuiltElemAccepted(e: SetElem)
    requires |Encode(ElemAttrs(e))| <= 0xFFFF
    ensures var r := ParseElem(Encode(ElemAttrs(e))); if AcceptedElem(e) then r.Ok? else r == Rejected
  {
    hide Encode, ElemAttrs, ParseElem, NormAll, AllAccepted;
    ParseBuiltElem(e);
    NormAllOrRejected(e.exprs);
  }

  lemma NormElemIsIdentity(e: SetElem)
    ensures NormElem(e) == Ok(e) <==> CanonicalElem(e)
  {
    hide NormAll, AllCanonical;
    NormAllIsIdentity(e.exprs);
  }

  lemma WalkNests(es: seq<SetElem>, nests: seq<Attr>)
    requires nests == ElemNests(es, 1)
    requires forall e <- es :: |Encode(ElemAttrs(e))| + NLA_HDRLEN <= 0xFFFF
    ensures Walk(Encode(nests)) == nests
  {
    hide Encode, Emit;
    forall a <- nests ensures NLA_HDRLEN + |a.payload| <= 0xFFFF {
      var k :| 0 <= k < |nests| && a == nests[k];
      assert es[k] in es;
    }
    WalkEncode(nests);
  }

  /** The builder numbers the elements of a list from 1, the parser accepts only
      type NFTA_LIST_ELEM, which is 1: a built list is accepted exactly when it is empty
      or holds a single element that is accepted.  An accepted first element stays in
      the set even when the list is refused. */
  lemma BuiltListParses(es: seq<SetElem>)
    requires forall e <- es :: |Encode(ElemAttrs(e))| + NLA_HDRLEN <= 0xFFFF
    ensures var r := ParseElems(Walk(Encode(ElemNests(es, 1))));
      && r.status == (if es == [] || (|es| == 1 && AcceptedElem(es[0])) then Ok(()) else Rejected)
      && (if es != [] && AcceptedElem(es[0]) then NormElem(es[0]).Ok? && r.done == [NormElem(es[0]).value]
          else r.done == [])
  {
    hide Encode, Emit, Walk, ParseElem, NormElem, AcceptedElem;
    var nests := ElemNests(es, 1);
    WalkNests(es, nests);
    if es != [] {
      assert es[0] in es;
      ParseBuiltElem(es[0]);
      BuiltElemAccepted(es[0]);
      var rest := nests[1..];
      assert nests[0] == ElemNest(es[0], 1);
      if |es| > 1 {
        assert rest[0] == ElemNest(es[1], 2);
      }
      assert ParseElems(rest).done == [];
      if AcceptedElem(es[0]) {
        assert [NormElem(es[0]).value] + [] == [NormElem(es[0]).value];
      }
    }
  }

  /** What comes back is canonical: one round trip reaches a fixed point. */
  lemma NormElemIsCanonical(e: SetElem)
    ensures NormElem(e).Ok? ==> CanonicalElem(NormElem(e).value)
  {
    hide NormAll, AllCanonical;
    NormAllIsCanonical(e.exprs);
  }
}
