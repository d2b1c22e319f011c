/** Building a rule message and parsing it again, and what a parsed rule depends on. */
module RuleRoundTrip {
  import opened Wrappers
  import opened Bytes
  import opened Netlink
  import opened Exprs
  import opened ExprRoundTrip
  import opened Rules

  /** The rule that comes back when its expressions do. */
  function NormRule(r: RuleValue, family: byte, exprs: seq<Expr>): RuleValue {
    r.(family := Some(family), exprs := exprs,
       compatProto := if HasCompat(r) then r.compatProto else None,
       compatFlags := if HasCompat(r) then r.compatFlags else None)
  }

  /** Rules the message can carry: canonical expressions, the two compat values
      together or not at all, and the family of the message header. */
  predicate CanonicalRule(r: RuleValue, family: byte) {
    r.family == Some(family) && AllCanonical(r.exprs) && (r.compatProto.Some? <==> r.compatFlags.Some?)
  }

  ghost predicate TableOf(t: Table, r: RuleValue) {
    && Checked(t, RULE_POLICY)
    && Get(t, NFTA_RULE_TABLE) == FieldText(NFTA_RULE_TABLE, r.table).payload
    && Get(t, NFTA_RULE_CHAIN) == FieldText(NFTA_RULE_CHAIN, r.chain).payload
    && Get(t, NFTA_RULE_HANDLE) == FieldU64(NFTA_RULE_HANDLE, r.handle).payload
    && Get(t, NFTA_RULE_POSITION) == FieldU64(NFTA_RULE_POSITION, r.position).payload
    && Get(t, NFTA_RULE_USERDATA) == r.userdata
    && Get(t, NFTA_RULE_EXPRESSIONS) == (if r.exprs != [] then Some(Encode(ListAttrs(r.exprs))) else None)
    && Get(t, NFTA_RULE_COMPAT) == (if HasCompat(r) then Some(Encode(Emit(CompatFields(r)))) else None)
    && Get(t, NFTA_RULE_ID) == FieldU32(NFTA_RULE_ID, r.id).payload
    && Get(t, NFTA_RULE_POSITION_ID) == FieldU32(NFTA_RULE_POSITION_ID, r.positionId).payload
  }

  lemma RuleTable(r: RuleValue)
    requires Fits(Emit(RuleFields(r)))
    ensures ParseTable(RuleBytes(r), RULE_POLICY).Ok?
    ensures TableOf(ParseTable(RuleBytes(r), RULE_POLICY).value, r)
  {
    hide Encode, Walk;
    var fs := RuleFields(r);
    if HasCompat(r) {
      TableNested(Emit(CompatFields(r)));
    }
    TableOfFields(fs, RULE_POLICY);
    var t := ParseTable(RuleBytes(r), RULE_POLICY).value;
    assert Get(t, fs[0].typ) == fs[0].payload;
    assert Get(t, fs[1].typ) == fs[1].payload;
    assert Get(t, fs[2].typ) == fs[2].payload;
    assert Get(t, fs[3].typ) == fs[3].payload;
    assert Get(t, fs[4].typ) == fs[4].payload;
    assert Get(t, fs[5].typ) == fs[5].payload;
    assert Get(t, fs[6].typ) == fs[6].payload;
    assert Get(t, fs[7].typ) == fs[7].payload;
    assert Get(t, fs[8].typ) == fs[8].payload;
  }

  lemma BuiltScalars(r: RuleValue, t: Table)
    requires TableOf(t, r)
    ensures GetText(t, NFTA_RULE_TABLE) == r.table
    ensures GetText(t, NFTA_RULE_CHAIN) == r.chain
    ensures GetU64(RULE_POLICY, t, NFTA_RULE_HANDLE) == r.handle
    ensures GetU64(RULE_POLICY, t, NFTA_RULE_POSITION) == r.position
    ensures GetU32(RULE_POLICY, t, NFTA_RULE_ID) == r.id
    ensures GetU32(RULE_POLICY, t, NFTA_RULE_POSITION_ID) == r.positionId
  {
    hide Encode, Walk;
    ReadText(t, NFTA_RULE_TABLE, r.table);
    ReadText(t, NFTA_RULE_CHAIN, r.chain);
    ReadU64(RULE_POLICY, t, NFTA_RULE_HANDLE, r.handle);
    ReadU64(RULE_POLICY, t, NFTA_RULE_POSITION, r.position);
    ReadU32(RULE_POLICY, t, NFTA_RULE_ID, r.id);
    ReadU32(RULE_POLICY, t, NFTA_RULE_POSITION_ID, r.positionId);
  }

  lemma BuiltExprs(es: seq<Expr>, t: Table)
    requires Get(t, NFTA_RULE_EXPRESSIONS) == (if es != [] then Some(Encode(ListAttrs(es))) else None)
    requires |Encode(ListAttrs(es))| <= 0xFFFF
    ensures ParseRuleExprs(t).All() == NormAll(es)
  {
    if es != [] {
      var attrs := ListAttrs(es);
      FitsInside(attrs);
      WalkEncode(attrs);
      WalkShorter(Encode(attrs));
      ParseBuiltList(es, attrs, |Encode(attrs)|);
    }
  }

  lemma BuiltCompat(r: RuleValue, t: Table, r0: RuleValue)
    requires Get(t, NFTA_RULE_COMPAT) == (if HasCompat(r) then Some(Encode(Emit(CompatFields(r)))) else None)
    requires r0.compatProto == None && r0.compatFlags == None
    ensures ParseCompat(r0, t) == Ok(r0.(compatProto := if HasCompat(r) then r.compatProto else None,
                                         compatFlags := if HasCompat(r) then r.compatFlags else None))
  {
    if HasCompat(r) {
      var fs := CompatFields(r);
      FitsFields(fs);
      TableOfFields(fs, COMPAT_POLICY);
      var c := ParseTable(Encode(Emit(fs)), COMPAT_POLICY).value;
      assert Get(c, fs[0].typ) == fs[0].payload;
      assert Get(c, fs[1].typ) == fs[1].payload;
      ReadU32(COMPAT_POLICY, c, NFTA_RULE_COMPAT_PROTO, r.compatProto);
      ReadU32(COMPAT_POLICY, c, NFTA_RULE_COMPAT_FLAGS, r.compatFlags);
    }
  }

  /** Parsing a built rule message into a fresh rule: it succeeds exactly when the
      expressions are accepted, and gives the rule with their normal forms; otherwise
      it returns an error, and never aborts or leaves defined behaviour. */
  lemma ParseBuiltRule(r: RuleValue, family: byte)
    requires Fits(Emit(RuleFields(r)))
    ensures ParseRule(FRESH_RULE, family, RuleBytes(r)).1 == if AllAccepted(r.exprs) then Ok(()) else Rejected
    ensures AllAccepted(r.exprs) ==> NormAll(r.exprs).Ok?
    ensures AllAccepted(r.exprs) ==>
      ParseRule(FRESH_RULE, family, RuleBytes(r)).0 == NormRule(r, family, NormAll(r.exprs).value)
  {
    RuleTable(r);
    ExpressionsFit(r);
    NormAllOrRejected(r.exprs);
    BuiltRuleOf(r, family, ParseTable(RuleBytes(r), RULE_POLICY).value);
  }

  lemma BuiltRuleOf(r: RuleValue, family: byte, t: Table)
    requires TableOf(t, r) && |Encode(ListAttrs(r.exprs))| <= 0xFFFF
    requires NormAll(r.exprs).Ok? || NormAll(r.exprs) == Rejected
    ensures var (parsed, status) := RuleOf(FRESH_RULE, family, t);
      if NormAll(r.exprs).Ok? then status == Ok(()) && parsed == NormRule(r, family, NormAll(r.exprs).value)
      else status == Rejected
  {
    hide Encode, Walk;
    BuiltExprs(r.exprs, t);
    var list := ParseRuleExprs(t);
    assert [] + list.done == list.done;
    var head := RuleHead(FRESH_RULE, t).(exprs := list.done);
    BuiltCompat(r, t, head);
    BuiltScalars(r, t);
  }

  lemma ExpressionsFit(r: RuleValue)
    requires Fits(Emit(RuleFields(r)))
    ensures |Encode(ListAttrs(r.exprs))| <= 0xFFFF
  {
    if r.exprs != [] {
      var fs := RuleFields(r);
      FieldEmitted(fs, 5);
      assert FieldAttr(fs[5]).payload == Encode(ListAttrs(r.exprs));
    }
  }

  /** The round trip of whole rules holds exactly for the canonical ones. */
  lemma RuleRoundTrip(r: RuleValue, family: byte)
    requires Fits(Emit(RuleFields(r)))
    ensures ParseRule(FRESH_RULE, family, RuleBytes(r)) == (r, Ok(())) <==> CanonicalRule(r, family)
  {
    hide ParseRule, RuleBytes, NormAll, AllCanonical, AllAccepted;
    ParseBuiltRule(r, family);
    NormAllOrRejected(r.exprs);
    NormAllIsIdentity(r.exprs);
  }

  // ---------- what a parsed rule depends on ----------

  /** No attribute of a known type has a malformed payload. */
  ghost predicate WellFormed(attrs: seq<Attr>, p: Policy) {
    forall a <- attrs :: TypeOf(a) <= p.max ==>
      TypeOf(a) <= p.slots && ValidPayload(KindOf(p, TypeOf(a)), a.payload)
  }

  lemma {:induction false} CollectIsLast(attrs: seq<Attr>, p: Policy)
    requires WellFormed(attrs, p)
    ensures Collect(attrs, p).Ok?
    ensures forall k: nat :: Get(Collect(attrs, p).value, k)
                          == if k <= p.max then LastPayload(attrs, k) else None
  {
    if attrs != [] {
      var init, a := attrs[..|attrs| - 1], attrs[|attrs| - 1];
      assert a in attrs;
      assert WellFormed(init, p);
      CollectIsLast(init, p);
      var t := Collect(init, p).value;
      assert Collect(attrs, p) == Record(t, a, p);
      var u := Record(t, a, p).value;
      forall k: nat ensures Get(u, k) == if k <= p.max then LastPayload(attrs, k) else None {
        assert Get(t, k) == if k <= p.max then LastPayload(init, k) else None;
        assert Get(u, k) == if k == TypeOf(a) <= p.max then Some(a.payload) else Get(t, k);
      }
    }
  }

  /** A well-formed rule message means no more than the last attribute of each
      known type: two messages that agree on those parse alike, whatever the order
      of their attributes, the duplicates and the attributes of unknown types. */
  lemma OnlyLastAttributesCount(r: RuleValue, family: byte, b: bytes, b': bytes)
    requires WellFormed(Walk(b), RULE_POLICY) && WellFormed(Walk(b'), RULE_POLICY)
    requires forall k: nat :: k <= NFTA_RULE_MAX ==> LastPayload(Walk(b), k) == LastPayload(Walk(b'), k)
    ensures ParseRule(r, family, b) == ParseRule(r, family, b')
  {
    CollectIsLast(Walk(b), RULE_POLICY);
    CollectIsLast(Walk(b'), RULE_POLICY);
    var t, t' := Collect(Walk(b), RULE_POLICY).value, Collect(Walk(b'), RULE_POLICY).value;
    forall k: nat ensures Get(t, k) == Get(t', k) {
    }
    assert t == t' by {
      forall k: nat ensures (k in t <==> k in t') && (k in t ==> t[k] == t'[k]) {
        assert Get(t, k) == Get(t', k);
      }
    }
  }

  lemma {:induction false} CollectCongruence(a: seq<Attr>, a': seq<Attr>, rest: seq<Attr>, p: Policy)
    requires Collect(a, p) == Collect(a', p)
    ensures Collect(a + rest, p) == Collect(a' + rest, p)
  {
    if rest == [] {
      assert a + rest == a && a' + rest == a';
    } else {
      var init := rest[..|rest| - 1];
      CollectCongruence(a, a', init, p);
      assert (a + rest)[..|a + rest| - 1] == a + init;
      assert (a' + rest)[..|a' + rest| - 1] == a' + init;
    }
  }

  lemma SameTableSameRule(r: RuleValue, family: byte, a: seq<Attr>, b: seq<Attr>)
    requires Fits(a) && Fits(b)
    requires Collect(a, RULE_POLICY) == Collect(b, RULE_POLICY)
    ensures ParseRule(r, family, Encode(a)) == ParseRule(r, family, Encode(b))
  {
    WalkEncode(a);
    WalkEncode(b);
  }

  lemma FitsConcat(a: seq<Attr>, b: seq<Attr>)
    ensures Fits(a + b) <==> Fits(a) && Fits(b)
  {
    assert forall x <- a :: x in a + b;
    assert forall x <- b :: x in a + b;
  }

  /** An attribute above NFTA_RULE_MAX changes nothing, wherever it stands and
      however malformed the rest of the message is. */
  lemma UnknownAttributesAreSkipped(r: RuleValue, family: byte, before: seq<Attr>, x: Attr, after: seq<Attr>)
    requires TypeOf(x) > NFTA_RULE_MAX
    requires Fits(before + [x] + after)
    ensures ParseRule(r, family, Encode(before + [x] + after)) == ParseRule(r, family, Encode(before + after))
  {
    var withX := before + [x];
    FitsConcat(withX, after);
    FitsConcat(before, [x]);
    FitsConcat(before, after);
    assert withX[..|before|] == before;
    assert Collect(withX, RULE_POLICY) == Collect(before, RULE_POLICY);
    CollectCongruence(withX, before, after, RULE_POLICY);
    SameTableSameRule(r, family, withX + after, before + after);
  }

  /** Neighbouring attributes of different types can change places. */
  lemma DifferentTypesCommute(r: RuleValue, family: byte, before: seq<Attr>, x: Attr, y: Attr, after: seq<Attr>)
    requires TypeOf(x) != TypeOf(y)
    requires Fits(before + [x, y] + after)
    ensures ParseRule(r, family, Encode(before + [x, y] + after))
         == ParseRule(r, family, Encode(before + [y, x] + after))
  {
    var xy, yx := before + [x, y], before + [y, x];
    assert Fits(yx + after) by {
      assert forall a <- yx + after :: a in xy + after;
    }
    SwapInTable(before, x, y);
    CollectCongruence(xy, yx, after, RULE_POLICY);
    SameTableSameRule(r, family, xy + after, yx + after);
  }

  lemma SwapInTable(before: seq<Attr>, x: Attr, y: Attr)
    requires TypeOf(x) != TypeOf(y)
    ensures Collect(before + [x, y], RULE_POLICY) == Collect(before + [y, x], RULE_POLICY)
  {
    CollectTwo(before, x, y, RULE_POLICY);
    CollectTwo(before, y, x, RULE_POLICY);
    if Collect(before, RULE_POLICY).Ok? {
      RecordsCommute(Collect(before, RULE_POLICY).value, x, y);
    }
  }

  function RecordTwo(t: Table, x: Attr, y: Attr, p: Policy): Outcome<Table> {
    var u :- Record(t, x, p);
    Record(u, y, p)
  }

  lemma RecordsCommute(t: Table, x: Attr, y: Attr)
    requires TypeOf(x) != TypeOf(y)
    ensures RecordTwo(t, x, y, RULE_POLICY) == RecordTwo(t, y, x, RULE_POLICY)
  {
    assert t[TypeOf(x) := x.payload][TypeOf(y) := y.payload] == t[TypeOf(y) := y.payload][TypeOf(x) := x.payload];
  }

  lemma CollectTwo(before: seq<Attr>, x: Attr, y: Attr, p: Policy)
    ensures !Collect(before, p).Ok? ==> Collect(before + [x, y], p) == Collect(before, p)
    ensures Collect(before, p).Ok? ==>
      Collect(before + [x, y], p) == RecordTwo(Collect(before, p).value, x, y, p)
  {
    assert (before + [x, y])[..|before| + 1] == before + [x];
    assert (before + [x])[..|before|] == before;
  }
}
