/** Which bytes each parser accepts, with the attribute types as numbers: exactly the ones
    whose payloads pass their checks and whose nests parse as the source demands. */
module WireAccept {
  import opened Wrappers
  import opened Bytes
  import opened Netlink
  import opened Exprs
  import opened Rules
  import opened SetElems
  import opened Devices
  import opened Hooks
  import opened WireRead

  // ---------- data registers ----------

  /** The nest of a register parses, and the parser of data registers returns 0. */
  predicate Good(nest: bytes) {
    ParseData(nest).Ok? && ParseData(nest).value.ok
  }

  /** The data parser looks at the value first: without 1 to 64 bytes it fails at once;
      with them, a verdict behind it still decides. */
  lemma DataAccepts(b: bytes)
    requires ParseTable(b, DATA_POLICY).Ok?
    ensures At(b, 1).Some? && !(1 <= |At(b, 1).value| <= 64) ==> ParseData(b).Ok? && !Good(b)
    ensures At(b, 1).Some? && 1 <= |At(b, 1).value| <= 64 && At(b, 2).Some? ==>
      ParseData(b) == ParseVerdict(At(b, 1).value, Some(DataValue), At(b, 2).value)
    ensures At(b, 1).None? && At(b, 2).Some? ==> ParseData(b) == ParseVerdict([], None, At(b, 2).value)
    ensures At(b, 2).None? ==> (Good(b) <==> At(b, 1).Some? ==> 1 <= |At(b, 1).value| <= 64)
  {
    hide Walk, LastPayload, ParseVerdict;
    TableIsLast(b, DATA_POLICY, 1);
    TableIsLast(b, DATA_POLICY, 2);
  }

  // ---------- expressions ----------

  /** An immediate needs data that says what it is. */
  lemma ImmediateAccepts(b: bytes)
    ensures ParseImmediate(b).Ok?
      <==> (ParseTable(b, IMMEDIATE_POLICY).Ok?
            && (At(b, 2).Some? ==> Good(At(b, 2).value) && ParseData(At(b, 2).value).value.kind.Some?))
    ensures ParseImmediate(b) == Rejected
      <==> (ParseTable(b, IMMEDIATE_POLICY).Ok? && At(b, 2).Some?
            && ParseData(At(b, 2).value).Ok? && !Good(At(b, 2).value))
  {
    hide Walk, LastPayload, ParseData;
    TablesNeverReject(b, IMMEDIATE_POLICY);
    if ParseTable(b, IMMEDIATE_POLICY).Ok? {
      TableIsLast(b, IMMEDIATE_POLICY, 2);
      NestNeverRejects(At(b, 2));
    }
  }

  /** A nest that may be missing, and that leaves a value and no pointer in its register. */
  predicate Readable(p: Option<bytes>) {
    p.Some? ==> ParseData(p.value).Ok? && ParseData(p.value).value.val.Some?
  }

  lemma CmpAccepts(b: bytes)
    ensures ParseCmp(b).Ok?
      <==> (ParseTable(b, CMP_POLICY).Ok? && Readable(At(b, 3)) && (At(b, 3).Some? ==> Good(At(b, 3).value)))
    ensures ParseCmp(b) == Rejected
      <==> (ParseTable(b, CMP_POLICY).Ok? && At(b, 3).Some?
            && ParseData(At(b, 3).value).Ok? && !Good(At(b, 3).value))
  {
    hide Walk, LastPayload, ParseData;
    TablesNeverReject(b, CMP_POLICY);
    if ParseTable(b, CMP_POLICY).Ok? {
      TableIsLast(b, CMP_POLICY, 3);
      NestNeverRejects(At(b, 3));
    }
  }

  lemma LookupAccepts(b: bytes)
    ensures ParseLookup(b).Ok? <==> ParseTable(b, LOOKUP_POLICY).Ok?
    ensures ParseLookup(b) != Rejected
  {
    hide Walk;
    TablesNeverReject(b, LOOKUP_POLICY);
  }

  predicate Walks(p: Option<bytes>) {
    p.Some? ==> ParseData(p.value).Ok?
  }

  /** A bitwise expression is refused only for the last register that is there: data, or
      without it xor, or without both the mask. */
  lemma BitwiseAccepts(b: bytes)
    ensures var last := if At(b, 7).Some? then At(b, 7) else if At(b, 5).Some? then At(b, 5) else At(b, 4);
      && (ParseBitwise(b).Ok?
          <==> (ParseTable(b, BITWISE_POLICY).Ok? && Readable(At(b, 4)) && Readable(At(b, 5)) && Readable(At(b, 7))
                && (last.Some? ==> Good(last.value))))
      && (ParseBitwise(b) == Rejected
          <==> (ParseTable(b, BITWISE_POLICY).Ok? && Walks(At(b, 4)) && Walks(At(b, 5)) && Walks(At(b, 7))
                && last.Some? && !Good(last.value)))
  {
    hide Walk, LastPayload, ParseData;
    TablesNeverReject(b, BITWISE_POLICY);
    if ParseTable(b, BITWISE_POLICY).Ok? {
      TableIsLast(b, BITWISE_POLICY, 4);
      TableIsLast(b, BITWISE_POLICY, 5);
      TableIsLast(b, BITWISE_POLICY, 7);
      NestNeverRejects(At(b, 4));
      NestNeverRejects(At(b, 5));
      NestNeverRejects(At(b, 7));
    }
  }

  // ---------- lists of expressions ----------

  predicate GoodExpr(a: Attr) {
    TypeOf(a) == 1 && ParseExpr(a.payload).Ok?
  }

  /** A list parses when every attribute has type 1 and holds an expression that parses.
      Otherwise the first attribute that does not meet this ends the loop, and the
      expressions before it stay. */
  lemma {:induction false} ListAccepts(attrs: seq<Attr>, bound: nat)
    requires forall a <- attrs :: |a.payload| < bound
    ensures var p := ParseList(attrs, bound);
      && (p.status.Ok? <==> forall a <- attrs :: GoodExpr(a))
      && |p.done| <= |attrs| && ListIn(attrs[..|p.done|], p.done)
      && (p.status.Ok? <==> |p.done| == |attrs|)
      && (|p.done| < |attrs| ==> !GoodExpr(attrs[|p.done|]))
      && (|p.done| < |attrs| && TypeOf(attrs[|p.done|]) != 1 ==> p.status == Rejected)
  {
    hide ParseExpr;
    if attrs != [] && GoodExpr(attrs[0]) {
      var p, rest := ParseList(attrs, bound), ParseList(attrs[1..], bound);
      ListAccepts(attrs[1..], bound);
      assert attrs[..|p.done|][1..] == attrs[1..][..|rest.done|];
      ListGrows(attrs[0], attrs[1..][..|rest.done|], p.done);
      assert attrs[..|p.done|] == [attrs[0]] + attrs[1..][..|rest.done|];
      assert attrs == [attrs[0]] + attrs[1..];
    }
  }

  lemma ListGrows(a: Attr, attrs: seq<Attr>, es: seq<Expr>)
    requires es != [] && ListIn(attrs, es[1..])
    requires TypeOf(a) == 1 && ParseExpr(a.payload) == Ok(es[0])
    ensures ListIn([a] + attrs, es)
  {
    hide ParseExpr, TypeOf;
    forall i | 0 <= i < |es|
      ensures TypeOf(([a] + attrs)[i]) == 1 && ParseExpr(([a] + attrs)[i].payload) == Ok(es[i])
    {
      if i > 0 {
        assert es[i] == es[1..][i - 1] && ([a] + attrs)[i] == attrs[i - 1];
      }
    }
  }

  /** One expression in a nest of its own, or else a list of them. */
  ghost predicate GoodExprs(one: Option<bytes>, list: Option<bytes>) {
    if one.Some? then ParseExpr(one.value).Ok?
    else list.Some? ==> forall a <- Walk(list.value) :: GoodExpr(a)
  }

  lemma DynsetAccepts(b: bytes)
    ensures ParseDynset(b).Ok?
      <==> (ParseTable(b, DYNSET_POLICY).Ok? && GoodExprs(At(b, 7), At(b, 10)))
  {
    hide Walk, LastPayload, ParseExpr, ParseList;
    if ParseTable(b, DYNSET_POLICY).Ok? {
      var t := ParseTable(b, DYNSET_POLICY).value;
      TableIsLast(b, DYNSET_POLICY, 7);
      TableIsLast(b, DYNSET_POLICY, 10);
      if 10 in t {
        WalkShorter(t[10]);
        ListAccepts(Walk(t[10]), |t[10]|);
      }
    }
  }

  // ---------- rules and set elements ----------

  lemma RuleAccepts(r: RuleValue, family: byte, b: bytes)
    ensures ParseRule(r, family, b).1.Ok?
      <==> (ParseTable(b, RULE_POLICY).Ok? && GoodExprs(None, At(b, 4))
            && (At(b, 5).Some? ==> ParseTable(At(b, 5).value, COMPAT_POLICY).Ok?))
  {
    hide Walk, LastPayload, ParseExpr, ParseList, RuleTail, RuleHead;
    if ParseTable(b, RULE_POLICY).Ok? {
      var t := ParseTable(b, RULE_POLICY).value;
      TableIsLast(b, RULE_POLICY, 4);
      TableIsLast(b, RULE_POLICY, 5);
      if 4 in t {
        WalkShorter(t[4]);
        ListAccepts(Walk(t[4]), |t[4]|);
      }
    }
  }

  /** Both keys and the data must parse, the data must say what it is, a chain must have a
      name, and the expressions must parse. */
  lemma ElemAccepts(b: bytes)
    ensures ParseElem(b).Ok?
      <==> (ParseTable(b, SET_ELEM_POLICY).Ok? && GoodKey(At(b, 1)) && GoodKey(At(b, 10))
            && GoodData(At(b, 2), KindIn(At(b, 10), KindIn(At(b, 1), None))) && GoodExprs(At(b, 7), At(b, 11)))
  {
    hide At, ParseKey, ParseElemData, ParseElemExprs, GoodKey, GoodData, GoodExprs, KindAfter, KindIn, HoldsPointer;
    if ParseTable(b, SET_ELEM_POLICY).Ok? {
      var t := ParseTable(b, SET_ELEM_POLICY).value;
      TableIsLast(b, SET_ELEM_POLICY, 1);
      TableIsLast(b, SET_ELEM_POLICY, 2);
      TableIsLast(b, SET_ELEM_POLICY, 10);
      AtIsLast(b);
      KeyAccepts(t, 1, None);
      var kind := KindIn(Get(t, 1), None);
      KeyAccepts(t, 10, kind);
      ElemDataAccepts(t, KindIn(Get(t, 10), kind));
      ElemExprsAccept(b);
    }
  }

  lemma AtIsLast(b: bytes)
    ensures forall typ: nat {:trigger At(b, typ)} :: At(b, typ) == LastPayload(Walk(b), typ)
  {
  }

  lemma KeyAccepts(t: Table, typ: nat, before: Option<RegKind>)
    ensures GoodKey(Get(t, typ)) <==> (ParseKey(t, typ).Ok? && !HoldsPointer(ParseKey(t, typ).value))
    ensures ParseKey(t, typ).Ok? ==> KindAfter(ParseKey(t, typ).value, before) == KindIn(Get(t, typ), before)
  {
    hide ParseData;
  }

  lemma ElemDataAccepts(t: Table, kind: Option<RegKind>)
    ensures GoodData(Get(t, 2), kind)
      <==> (ParseElemData(t, kind).Ok? && !ParseElemData(t, kind).value.nullChain)
  {
    hide ParseData;
  }

  predicate GoodKey(p: Option<bytes>) {
    Readable(p) && (p.Some? ==> Good(p.value))
  }

  predicate GoodData(p: Option<bytes>, before: Option<RegKind>) {
    p.Some? ==>
      && Good(p.value) && KindIn(p, before).Some?
      && (KindIn(p, before) == Some(DataChain) ==> ParseData(p.value).value.chain.Some?)
  }

  lemma ElemExprsAccept(b: bytes)
    requires ParseTable(b, SET_ELEM_POLICY).Ok?
    ensures ParseElemExprs(ParseTable(b, SET_ELEM_POLICY).value).Ok? <==> GoodExprs(At(b, 7), At(b, 11))
  {
    hide Walk, LastPayload, ParseExpr, ParseList;
    var t := ParseTable(b, SET_ELEM_POLICY).value;
    TableIsLast(b, SET_ELEM_POLICY, 7);
    TableIsLast(b, SET_ELEM_POLICY, 11);
    if 11 in t {
      WalkShorter(t[11]);
      ListAccepts(Walk(t[11]), |t[11]|);
    }
  }

  /** A list of elements: those before the first that does not parse, or that is not in an
      attribute of type 1, are added. */
  lemma {:induction false} ElemsAccept(attrs: seq<Attr>)
    ensures var p := ParseElems(attrs);
      && (p.status.Ok? <==> |p.done| == |attrs|) && |p.done| <= |attrs|
      && (forall i :: 0 <= i < |p.done| ==> TypeOf(attrs[i]) == 1 && ParseElem(attrs[i].payload) == Ok(p.done[i]))
      && (|p.done| < |attrs| ==>
          var a := attrs[|p.done|];
          if TypeOf(a) != 1 then p.status == Rejected
          else !ParseElem(a.payload).Ok? && p.status == ParseElem(a.payload).PropagateFailure<()>())
  {
    hide ParseElem;
    if attrs != [] && TypeOf(attrs[0]) == 1 && ParseElem(attrs[0].payload).Ok? {
      ElemsAccept(attrs[1..]);
      var p, rest := ParseElems(attrs), ParseElems(attrs[1..]);
      forall i | 0 <= i < |p.done|
        ensures TypeOf(attrs[i]) == 1 && ParseElem(attrs[i].payload) == Ok(p.done[i])
      {
        if i > 0 {
          assert attrs[i] == attrs[1..][i - 1] && p.done[i] == rest.done[i - 1];
        }
      }
    }
  }

  // ---------- hooks ----------

  lemma HookAccepts(b: bytes)
    ensures ParseHook(b).Ok?
      <==> (ParseTable(b, HOOK_POLICY).Ok?
            && (At(b, 4).Some? ==> forall a <- Walk(At(b, 4).value) :: TypeOf(a) == 1))
  {
    hide Walk, LastPayload, DeviceNames;
    if ParseTable(b, HOOK_POLICY).Ok? {
      TableIsLast(b, HOOK_POLICY, 4);
      if At(b, 4).Some? {
        DeviceNamesRead(Walk(At(b, 4).value));
      }
    }
  }

  // ---------- what never happens ----------

  lemma TablesNeverReject(b: bytes, p: Policy)
    ensures ParseTable(b, p) != Rejected
  {
    CollectNeverRejects(Walk(b), p);
  }

  lemma {:induction false} CollectNeverRejects(attrs: seq<Attr>, p: Policy)
    ensures Collect(attrs, p) != Rejected
  {
    hide ValidPayload;
    if attrs != [] {
      CollectNeverRejects(attrs[..|attrs| - 1], p);
    }
  }

  lemma DataNeverRejects(b: bytes)
    ensures ParseData(b) != Rejected
  {
    hide Walk, LastPayload;
    TablesNeverReject(b, DATA_POLICY);
    if ParseTable(b, DATA_POLICY).Ok? && 2 in ParseTable(b, DATA_POLICY).value {
      TablesNeverReject(ParseTable(b, DATA_POLICY).value[2], VERDICT_POLICY);
    }
  }

  lemma NestNeverRejects(p: Option<bytes>)
    ensures p.Some? ==> ParseData(p.value) != Rejected
  {
    if p.Some? {
      DataNeverRejects(p.value);
    }
  }
}
