/** Building again what was parsed from a built message: the same bytes come out,
    except where the parser lost an attribute of a verdict. */
module Rebuild {
  import opened Wrappers
  import opened Bytes
  import opened Netlink
  import opened Messages
  import opened Exprs
  import opened ExprBuild
  import opened ExprRoundTrip
  import opened Rules
  import opened RuleRoundTrip

  /** Every attribute the builder writes is one the parser keeps: no chain id, and
      a chain name only with jump and goto. */
  predicate Lossless(e: Expr)
    decreases e, 1
  {
    match e
    case Immediate(_, data, verdict, chain, chainId) =>
      data.Some? || verdict.None?
      || (chainId.None? && (chain.Some? ==> JumpVerdict(verdict.value)))
    case Cmp(_, _, _) => true
    case Lookup(_, _, _, _, _) => true
    case Bitwise(_, _, _, _, _, _, _) => true
    case Dynset(_, _, _, _, _, _, exprs, _) => AllLossless(exprs)
    case Notrack => true
  }

  predicate AllLossless(es: seq<Expr>)
    decreases es, 0
  {
    es == [] || (Lossless(es[0]) && AllLossless(es[1..]))
  }

  function FieldSize(f: Field): nat {
    |Encode(EmitOne(f))|
  }

  lemma EmitSize(fs: seq<Field>, n: nat)
    requires |fs| == n + 1
    ensures |Encode(Emit(fs))| == |Encode(Emit(fs[..n]))| + FieldSize(fs[n])
  {
    EncodeConcat(Emit(fs[..n]), EmitOne(fs[n]));
  }

  function Sizes(fs: seq<Field>): seq<nat> {
    seq(|fs|, i requires 0 <= i < |fs| => FieldSize(fs[i]))
  }

  function Sum(s: seq<nat>): nat {
    if s == [] then 0 else Sum(s[..|s| - 1]) + s[|s| - 1]
  }

  lemma {:induction false} EmitSum(fs: seq<Field>)
    ensures |Encode(Emit(fs))| == Sum(Sizes(fs))
  {
    if fs != [] {
      var n := |fs| - 1;
      EmitSum(fs[..n]);
      EmitSize(fs, n);
      assert Sizes(fs)[..n] == Sizes(fs[..n]);
    }
  }

  lemma {:induction false} SumShrinks(s: seq<nat>, t: seq<nat>, at: nat)
    requires |s| == |t|
    requires forall i :: 0 <= i < |s| ==> t[i] <= s[i]
    ensures Sum(t) <= Sum(s)
    ensures at < |s| && t[at] < s[at] ==> Sum(t) < Sum(s)
  {
    if s != [] {
      SumShrinks(s[..|s| - 1], t[..|s| - 1], at);
    }
  }

  /** Fields that never grow make an encoding that does not grow, and one that
      shrinks when field `at` does. */
  lemma EmitShrinks(fs: seq<Field>, gs: seq<Field>, at: nat)
    requires |fs| == |gs|
    requires forall i :: 0 <= i < |fs| ==> Sizes(gs)[i] <= Sizes(fs)[i]
    ensures |Encode(Emit(gs))| <= |Encode(Emit(fs))|
    ensures at < |fs| && Sizes(gs)[at] < Sizes(fs)[at] ==> |Encode(Emit(gs))| < |Encode(Emit(fs))|
  {
    EmitSum(fs);
    EmitSum(gs);
    SumShrinks(Sizes(fs), Sizes(gs), at);
  }

  lemma NestSize(typ: nat, attrs: seq<Attr>)
    ensures FieldSize(FieldNest(typ, Some(attrs))) == NLA_HDRLEN + |Encode(attrs)|
  {
    NestField(typ, attrs);
  }

  lemma SomeFieldHasSize(f: Field)
    requires f.payload.Some?
    ensures FieldSize(f) > 0
  {
    EncodeOne(FieldAttr(f));
  }

  /** A verdict that came back: equal, or smaller by what was lost. */
  lemma RebuildVerdict(code: u32, chain: Option<CString>, chainId: Option<u32>)
    ensures var kept := if JumpVerdict(code) then chain else None;
            var before, after := Encode(VerdictAttrs(code, chain, chainId)), Encode(VerdictAttrs(code, kept, None));
            && |after| <= |before|
            && (!(chainId.None? && (chain.Some? ==> JumpVerdict(code))) ==> |after| < |before|)
  {
    var kept := if JumpVerdict(code) then chain else None;
    var fs, gs := VerdictFields(code, chain, chainId), VerdictFields(code, kept, None);
    assert FieldSize(gs[2]) == 0;
    if chain.Some? {
      SomeFieldHasSize(fs[1]);
    }
    if chainId.Some? {
      SomeFieldHasSize(fs[2]);
    }
    assert FieldSize(gs[0]) <= FieldSize(fs[0]);
    assert FieldSize(gs[1]) <= FieldSize(fs[1]);
    EmitShrinks(fs, gs, if chainId.Some? then 2 else 1);
    NestSize(NFTA_DATA_VERDICT, Emit(fs));
    NestSize(NFTA_DATA_VERDICT, Emit(gs));
  }

  lemma RebuildImmediate(e: Expr, e': Expr)
    requires e.Immediate? && Norm(e) == Ok(e')
    ensures Lossless(e) ==> ImmediateFields(e') == ImmediateFields(e)
    ensures |Encode(Emit(ImmediateFields(e')))| <= |Encode(Emit(ImmediateFields(e)))|
    ensures !Lossless(e) ==> |Encode(Emit(ImmediateFields(e')))| < |Encode(Emit(ImmediateFields(e)))|
  {
    hide Encode;
    if e.data.None? && e.verdict.Some? {
      var before := VerdictAttrs(e.verdict.value, e.chain, e.chainId);
      var after := VerdictAttrs(e.verdict.value, e'.chain, None);
      RebuildVerdict(e.verdict.value, e.chain, e.chainId);
      ImmediateSize(e, before);
      ImmediateSize(e', after);
    }
  }

  lemma ImmediateSize(e: Expr, attrs: seq<Attr>)
    requires e.Immediate? && ImmediateData(e) == Some(attrs)
    ensures |Encode(Emit(ImmediateFields(e)))|
         == FieldSize(FieldU32(NFTA_IMMEDIATE_DREG, e.dreg)) + NLA_HDRLEN + |Encode(attrs)|
  {
    PairSize(FieldU32(NFTA_IMMEDIATE_DREG, e.dreg), NFTA_IMMEDIATE_DATA, attrs);
  }

  lemma PairSize(f: Field, typ: nat, attrs: seq<Attr>)
    ensures |Encode(Emit([f, FieldNest(typ, Some(attrs))]))| == FieldSize(f) + NLA_HDRLEN + |Encode(attrs)|
  {
    NestSize(typ, attrs);
    var fs := [f, FieldNest(typ, Some(attrs))];
    EmitSize(fs, 1);
    EmitSize(fs[..1], 0);
    assert fs[..1][..0] == [];
  }

  lemma {:induction false} RebuildList(es: seq<Expr>, es': seq<Expr>)
    requires NormAll(es) == Ok(es')
    ensures AllLossless(es) ==> ListAttrs(es') == ListAttrs(es)
    ensures |Encode(ListAttrs(es'))| <= |Encode(ListAttrs(es))|
    ensures !AllLossless(es) ==> |Encode(ListAttrs(es'))| < |Encode(ListAttrs(es))|
    decreases es, 0
  {
    if es != [] {
      var e', rest' := Norm(es[0]).value, NormAll(es[1..]).value;
      assert es'[0] == e' && es'[1..] == rest';
      RebuildExpr(es[0], e');
      RebuildList(es[1..], rest');
      ListSize(es);
      ListSize(es');
    }
  }

  lemma ListSize(es: seq<Expr>)
    requires es != []
    ensures ListAttrs(es) == [Nest(NFTA_LIST_ELEM, ExprAttrs(es[0]))] + ListAttrs(es[1..])
    ensures |Encode(ListAttrs(es))| == NLA_HDRLEN + |Encode(ExprAttrs(es[0]))| + |Encode(ListAttrs(es[1..]))|
  {
    var first := Nest(NFTA_LIST_ELEM, ExprAttrs(es[0]));
    EncodeConcat([first], ListAttrs(es[1..]));
    EncodeOne(first);
    NestField(NFTA_LIST_ELEM, ExprAttrs(es[0]));
  }

  lemma RebuildDynset(e: Expr, e': Expr)
    requires e.Dynset? && Norm(e) == Ok(e')
    ensures Lossless(e) ==> DataFields(e') == DataFields(e)
    ensures |Encode(Emit(DataFields(e')))| <= |Encode(Emit(DataFields(e)))|
    ensures !Lossless(e) ==> |Encode(Emit(DataFields(e')))| < |Encode(Emit(DataFields(e)))|
    decreases e, 1
  {
    hide Encode;
    var fs, gs := DataFields(e), DataFields(e');
    DynsetFields(e, fs);
    DynsetFields(e', gs);
    RebuildInner(e.exprs, e'.exprs);
    if AllLossless(e.exprs) {
      assert fs == gs;
    } else {
      EmitShrinks(fs, gs, if |e.exprs| == 1 then 6 else 7);
    }
  }

  /** The two fields that hold the inner expressions of a dynset. */
  lemma RebuildInner(es: seq<Expr>, es': seq<Expr>)
    requires NormAll(es) == Ok(es')
    ensures |es'| == |es|
    ensures |es| == 1 ==>
      var f := FieldNest(NFTA_DYNSET_EXPR, Some(ExprAttrs(es[0])));
      var g := FieldNest(NFTA_DYNSET_EXPR, Some(ExprAttrs(es'[0])));
      && (AllLossless(es) ==> f == g) && FieldSize(g) <= FieldSize(f)
      && (!AllLossless(es) ==> FieldSize(g) < FieldSize(f))
    ensures |es| > 1 ==>
      var f, g := FieldNest(NFTA_DYNSET_EXPRESSIONS, Some(ListAttrs(es))),
                  FieldNest(NFTA_DYNSET_EXPRESSIONS, Some(ListAttrs(es')));
      && (AllLossless(es) ==> f == g) && FieldSize(g) <= FieldSize(f)
      && (!AllLossless(es) ==> FieldSize(g) < FieldSize(f))
    decreases es, 1
  {
    if |es| == 1 {
      RebuildExpr(es[0], es'[0]);
      NestSize(NFTA_DYNSET_EXPR, ExprAttrs(es[0]));
      NestSize(NFTA_DYNSET_EXPR, ExprAttrs(es'[0]));
      assert AllLossless(es[1..]);
    } else if |es| > 1 {
      RebuildList(es, es');
      NestSize(NFTA_DYNSET_EXPRESSIONS, ListAttrs(es));
      NestSize(NFTA_DYNSET_EXPRESSIONS, ListAttrs(es'));
    }
  }

  function NameSize(o: Ops): nat {
    FieldSize(FieldText(NFTA_EXPR_NAME, Some(OpsName(o))))
  }

  lemma ExprSize(e: Expr)
    requires !e.Notrack?
    ensures |Encode(ExprAttrs(e))| == NameSize(OpsOf(e)) + NLA_HDRLEN + |Encode(Emit(DataFields(e)))|
  {
    PairSize(FieldText(NFTA_EXPR_NAME, Some(OpsName(OpsOf(e)))), NFTA_EXPR_DATA, Emit(DataFields(e)));
  }

  lemma NormKeepsType(e: Expr, e': Expr)
    requires Norm(e) == Ok(e')
    ensures OpsOf(e') == OpsOf(e) && (e.Dynset? || e.Immediate? || (e' == e && Lossless(e)))
  {
  }

  /** An expression that came back builds the same attributes, or fewer bytes. */
  lemma {:induction false} RebuildExpr(e: Expr, e': Expr)
    requires Norm(e) == Ok(e')
    ensures Lossless(e) ==> ExprAttrs(e') == ExprAttrs(e)
    ensures |Encode(ExprAttrs(e'))| <= |Encode(ExprAttrs(e))|
    ensures !Lossless(e) ==> |Encode(ExprAttrs(e'))| < |Encode(ExprAttrs(e))|
    decreases e, 2
  {
    hide Encode, Emit, ExprAttrs, NormAll, AllLossless, Norm;
    NormKeepsType(e, e');
    if e.Dynset? {
      RebuildDynset(e, e');
    } else if e.Immediate? {
      RebuildImmediate(e, e');
    }
    if e.Dynset? || e.Immediate? {
      ExprSize(e);
      ExprSize(e');
      if Lossless(e) {
        SameData(e, e');
      }
    }
  }

  lemma SameData(e: Expr, e': Expr)
    requires OpsOf(e) == OpsOf(e') && DataFields(e') == DataFields(e)
    ensures ExprAttrs(e') == ExprAttrs(e)
  {
    assert ExprFields(e') == ExprFields(e);
  }

  lemma RebuildFields(r: RuleValue, r': RuleValue)
    requires NormAll(r.exprs) == Ok(r'.exprs)
    requires r' == NormRule(r, 0, r'.exprs).(family := r'.family)
    ensures RuleBytes(r') == RuleBytes(r) <==> AllLossless(r.exprs)
  {
    hide Encode;
    var fs, gs := RuleFields(r), RuleFields(r');
    RebuildList(r.exprs, r'.exprs);
    assert fs[6] == gs[6];
    if AllLossless(r.exprs) {
      assert fs == gs;
    } else {
      NestSize(NFTA_RULE_EXPRESSIONS, ListAttrs(r.exprs));
      NestSize(NFTA_RULE_EXPRESSIONS, ListAttrs(r'.exprs));
      assert forall i :: 0 <= i < 9 && i != 5 ==> fs[i] == gs[i];
      EmitShrinks(fs, gs, 5);
    }
  }

  /** Building a rule again after parsing it gives the same bytes if and only if
      none of its expressions, at any depth, lost an attribute. */
  lemma RebuildRule(r: RuleValue, family: byte)
    requires Fits(Emit(RuleFields(r)))
    requires ParseRule(FRESH_RULE, family, RuleBytes(r)).1 == Ok(())
    ensures RuleBytes(ParseRule(FRESH_RULE, family, RuleBytes(r)).0) == RuleBytes(r) <==> AllLossless(r.exprs)
  {
    ParseBuiltRule(r, family);
    RebuildFields(r, NormRule(r, family, NormAll(r.exprs).value));
  }

  lemma RebuiltFits(r: RuleValue, r': RuleValue)
    requires NormAll(r.exprs) == Ok(r'.exprs) && Fits(Emit(RuleFields(r)))
    requires r' == NormRule(r, 0, r'.exprs).(family := r'.family)
    ensures Fits(Emit(RuleFields(r')))
  {
    hide Encode, Emit, ListAttrs;
    var fs, gs := RuleFields(r), RuleFields(r');
    RebuildList(r.exprs, r'.exprs);
    assert fs[6] == gs[6];
    assert forall i :: 0 <= i < 9 && i != 5 ==> fs[i] == gs[i];
    forall i | 0 <= i < 9 && gs[i].payload.Some? ensures NLA_HDRLEN + |gs[i].payload.value| <= 0xFFFF {
      FieldEmitted(fs, i);
      assert FieldAttr(fs[i]).payload == fs[i].payload.value;
    }
    FitsFields(gs);
  }

  /** What a rule message brought across is stable: sent again, it comes back the same. */
  lemma ParsedRuleIsStable(r: RuleValue, family: byte, r': RuleValue)
    requires Fits(Emit(RuleFields(r)))
    requires ParseRule(FRESH_RULE, family, RuleBytes(r)) == (r', Ok(()))
    ensures CanonicalRule(r', family) && Fits(Emit(RuleFields(r')))
    ensures ParseRule(FRESH_RULE, family, RuleBytes(r')) == (r', Ok(()))
  {
    hide ParseRule, RuleBytes, NormAll, AllCanonical, AllAccepted, RuleFields, Fits, Emit;
    ParseBuiltRule(r, family);
    NormAllIsCanonical(r.exprs);
    RebuiltFits(r, r');
    RuleRoundTrip.RuleRoundTrip(r', family);
  }
}
