/** The printers of data registers, expressions, rules, set elements and sets.  Each
    returns the full length of its text and leaves in the buffer what fits. */
module Printers {
  import opened Wrappers
  import opened Bytes
  import opened Exprs
  import opened Rules
  import opened SetElems
  import opened Texts
  import opened Printer

  // ---------- data registers ----------

  /** nftnl_data_reg_value_snprintf_default */
  method ValueSnprintf(buf: array<byte>, at: nat, size: nat, v: Option<RegValue>, noPrefix: bool) returns (ret: int)
    requires Shows(buf[..], at, size, [])
    modifies buf
    ensures ret == |ValueText(v, noPrefix)| && Printed(old(buf[..]), buf[..], at, size, ValueText(v, noPrefix))
  {
    hide Printed, Shows, WordText;
    ghost var b0 := buf[..];
    var reg := OrEmpty(v);
    var offset, remain := 0, size;
    PrintingStart(b0, at, size);
    for i := 0 to WordCount(reg)
      invariant Printing(b0, buf[..], at, size, WordsText(reg, noPrefix, i), offset, remain)
    {
      offset, remain := Print(buf, at, size, offset, remain, WordText(reg, noPrefix, i),
                              b0, WordsText(reg, noPrefix, i));
    }
    ret := offset;
  }

  /** nftnl_data_reg_verdict_snprintf_def */
  method VerdictSnprintf(buf: array<byte>, at: nat, size: nat, code: Option<u32>, chain: Option<CString>)
    returns (ret: int)
    requires Shows(buf[..], at, size, [])
    modifies buf
    ensures ret == |Flat(VerdictCalls(code, chain))|
    ensures Printed(old(buf[..]), buf[..], at, size, Flat(VerdictCalls(code, chain)))
  {
    hide Printed, Shows, Calling, Flat, Lit, VerdictName;
    ghost var b0, calls := buf[..], VerdictCalls(code, chain);
    var offset, remain := 0, size;
    CallsStart(b0, at, size, calls);
    offset, remain := Call(buf, at, size, offset, remain, Flat([VerdictName(OrZero(code)), Lit(" ")]), b0, calls, 0);
    offset, remain := CallWhen(buf, at, size, offset, remain, chain.Some?,
                               [Lit("-> "), Str(chain), Lit(" ")], b0, calls, 1);
    CallsDone(b0, buf[..], at, size, calls, offset, remain);
    ret := offset;
  }

  /** A data register as the next call of a printer. */
  method CallValue(buf: array<byte>, at: nat, size: nat, offset: nat, remain: nat, v: Option<RegValue>, noPrefix: bool,
                   ghost b0: bytes, ghost calls: seq<CString>, ghost i: nat)
    returns (offset': nat, remain': nat)
    requires Calling(b0, buf[..], at, size, calls, i, offset, remain)
    requires i < |calls| && calls[i] == ValueText(v, noPrefix)
    modifies buf
    ensures Calling(b0, buf[..], at, size, calls, i + 1, offset', remain')
  {
    hide Printed, Shows, Flat, ValueText;
    ghost var b1 := buf[..];
    NestedStart(b0, b1, at, size, Flat(calls[..i]), offset, remain);
    var ret := ValueSnprintf(buf, at + offset, remain, v, noPrefix);
    offset', remain' := Called(ret, offset, remain, b0, b1, buf[..], at, size, calls, i);
  }

  method CallVerdict(buf: array<byte>, at: nat, size: nat, offset: nat, remain: nat,
                     code: Option<u32>, chain: Option<CString>,
                     ghost b0: bytes, ghost calls: seq<CString>, ghost i: nat)
    returns (offset': nat, remain': nat)
    requires Calling(b0, buf[..], at, size, calls, i, offset, remain)
    requires i < |calls| && calls[i] == Flat(VerdictCalls(code, chain))
    modifies buf
    ensures Calling(b0, buf[..], at, size, calls, i + 1, offset', remain')
  {
    hide Printed, Shows, Flat, VerdictCalls;
    ghost var b1 := buf[..];
    NestedStart(b0, b1, at, size, Flat(calls[..i]), offset, remain);
    var ret := VerdictSnprintf(buf, at + offset, remain, code, chain);
    offset', remain' := Called(ret, offset, remain, b0, b1, buf[..], at, size, calls, i);
  }

  // ---------- expressions ----------

  method ImmediateSnprintf(buf: array<byte>, at: nat, size: nat, e: Expr, noPrefix: bool) returns (ret: int)
    requires e.Immediate? && Shows(buf[..], at, size, [])
    modifies buf
    ensures ret == |Flat(ImmediateCalls(e, noPrefix))|
    ensures Printed(old(buf[..]), buf[..], at, size, Flat(ImmediateCalls(e, noPrefix)))
  {
    hide Printed, Shows, Flat, Lit, Decimal, ValueText, VerdictCalls, Calling;
    ghost var b0, calls := buf[..], ImmediateCalls(e, noPrefix);
    var offset, remain := 0, size;
    CallsStart(b0, at, size, calls);
    offset, remain := Call(buf, at, size, offset, remain, Flat([Lit("reg "), Decimal(OrZero(e.dreg)), Lit(" ")]),
                           b0, calls, 0);
    if e.data.Some? {
      offset, remain := CallValue(buf, at, size, offset, remain, e.data, noPrefix, b0, calls, 1);
    } else if e.verdict.Some? || e.chain.Some? {
      offset, remain := CallVerdict(buf, at, size, offset, remain, e.verdict, e.chain, b0, calls, 1);
    } else {
      SkipCall(b0, buf[..], at, size, calls, 1, offset, remain);
    }
    CallsDone(b0, buf[..], at, size, calls, offset, remain);
    ret := offset;
  }

  method CmpSnprintf(buf: array<byte>, at: nat, size: nat, e: Expr) returns (ret: int)
    requires e.Cmp? && Shows(buf[..], at, size, [])
    modifies buf
    ensures ret == |Flat(CmpCalls(e))| && Printed(old(buf[..]), buf[..], at, size, Flat(CmpCalls(e)))
  {
    hide Printed, Shows, Flat, Lit, Decimal, ValueText, CmpName, Calling;
    ghost var b0, calls := buf[..], CmpCalls(e);
    var offset, remain := 0, size;
    CallsStart(b0, at, size, calls);
    offset, remain := Call(buf, at, size, offset, remain,
                           Flat([CmpName(OrZero(e.op)), Lit(" reg "), Decimal(OrZero(e.sreg)), Lit(" ")]),
                           b0, calls, 0);
    offset, remain := CallValue(buf, at, size, offset, remain, e.data, false, b0, calls, 1);
    CallsDone(b0, buf[..], at, size, calls, offset, remain);
    ret := offset;
  }

  method LookupSnprintf(buf: array<byte>, at: nat, size: nat, e: Expr) returns (ret: int)
    requires e.Lookup? && Shows(buf[..], at, size, [])
    modifies buf
    ensures ret == |Flat(LookupCalls(e))| && Printed(old(buf[..]), buf[..], at, size, Flat(LookupCalls(e)))
  {
    hide Printed, Shows, Flat, Lit, Decimal, Hex, Str, Calling;
    ghost var b0, calls := buf[..], LookupCalls(e);
    var offset, remain := 0, size;
    CallsStart(b0, at, size, calls);
    offset, remain := Call(buf, at, size, offset, remain,
                           Flat([Lit("reg "), Decimal(OrZero(e.sreg)), Lit(" set "), Str(e.setName), Lit(" ")]),
                           b0, calls, 0);
    offset, remain := CallWhen(buf, at, size, offset, remain, e.dreg.Some?,
                               [Lit("dreg "), Decimal(OrZero(e.dreg)), Lit(" ")], b0, calls, 1);
    offset, remain := CallWhen(buf, at, size, offset, remain, e.lookupFlags.Some?,
                               [Lit("0x"), Hex(OrZero(e.lookupFlags)), Lit(" ")], b0, calls, 2);
    CallsDone(b0, buf[..], at, size, calls, offset, remain);
    ret := offset;
  }

  method BitwiseBoolSnprintf(buf: array<byte>, at: nat, size: nat, e: Expr) returns (ret: int)
    requires e.Bitwise? && Shows(buf[..], at, size, [])
    modifies buf
    ensures ret == |Flat(BitwiseBoolCalls(e))|
    ensures Printed(old(buf[..]), buf[..], at, size, Flat(BitwiseBoolCalls(e)))
  {
    hide Printed, Shows, Flat, Lit, Decimal, ValueText, Calling;
    ghost var b0, calls := buf[..], BitwiseBoolCalls(e);
    var offset, remain := 0, size;
    CallsStart(b0, at, size, calls);
    offset, remain := Call(buf, at, size, offset, remain,
                           Flat([Lit("reg "), Decimal(OrZero(e.dreg)), Lit(" = ( reg "),
                                 Decimal(OrZero(e.sreg)), Lit(" & ")]),
                           b0, calls, 0);
    offset, remain := CallValue(buf, at, size, offset, remain, e.mask, false, b0, calls, 1);
    offset, remain := Call(buf, at, size, offset, remain, Lit(") ^ "), b0, calls, 2);
    offset, remain := CallValue(buf, at, size, offset, remain, e.xor, false, b0, calls, 3);
    CallsDone(b0, buf[..], at, size, calls, offset, remain);
    ret := offset;
  }

  method BitwiseShiftSnprintf(buf: array<byte>, at: nat, size: nat, op: CString, e: Expr) returns (ret: int)
    requires e.Bitwise? && Shows(buf[..], at, size, [])
    modifies buf
    ensures ret == |Flat(BitwiseShiftCalls(e, op))|
    ensures Printed(old(buf[..]), buf[..], at, size, Flat(BitwiseShiftCalls(e, op)))
  {
    hide Printed, Shows, Flat, Lit, Decimal, ValueText, Calling;
    ghost var b0, calls := buf[..], BitwiseShiftCalls(e, op);
    var offset, remain := 0, size;
    CallsStart(b0, at, size, calls);
    offset, remain := Call(buf, at, size, offset, remain,
                           Flat([Lit("reg "), Decimal(OrZero(e.dreg)), Lit(" = ( reg "), Decimal(OrZero(e.sreg)),
                                 Lit(" "), op, Lit(" ")]),
                           b0, calls, 0);
    offset, remain := CallValue(buf, at, size, offset, remain, e.data, false, b0, calls, 1);
    offset, remain := Call(buf, at, size, offset, remain, Lit(") "), b0, calls, 2);
    CallsDone(b0, buf[..], at, size, calls, offset, remain);
    ret := offset;
  }

  /** nftnl_expr_bitwise_snprintf fails for an operation it does not know. */
  method BitwiseSnprintf(buf: array<byte>, at: nat, size: nat, e: Expr) returns (ret: int)
    requires e.Bitwise? && Shows(buf[..], at, size, [])
    modifies buf
    ensures |BitwiseText(e)| == if ret < 0 then 0 else ret
    ensures Printed(old(buf[..]), buf[..], at, size, BitwiseText(e))
  {
    hide Flat, Lit, Shows;
    ret := -1;
    if OrZero(e.op) == 0 {
      ret := BitwiseBoolSnprintf(buf, at, size, e);
    } else if OrZero(e.op) == 1 {
      ret := BitwiseShiftSnprintf(buf, at, size, Lit("<<"), e);
    } else if OrZero(e.op) == 2 {
      ret := BitwiseShiftSnprintf(buf, at, size, Lit(">>"), e);
    }
  }

  method DynsetSnprintf(buf: array<byte>, at: nat, size: nat, e: Expr) returns (ret: int)
    requires e.Dynset? && Shows(buf[..], at, size, [])
    modifies buf
    ensures ret == |Flat(DynsetCalls(e))| && Printed(old(buf[..]), buf[..], at, size, Flat(DynsetCalls(e)))
    decreases e, 0
  {
    hide Printed, Shows, Flat, Lit, Decimal, Amount, Str, DynsetOpName, Calling, Printing, BracketedAll;
    ghost var b0, calls := buf[..], DynsetCalls(e);
    var offset, remain := 0, size;
    CallsStart(b0, at, size, calls);
    offset, remain := Call(buf, at, size, offset, remain,
                           Flat([DynsetOpName(OrZero(e.op)), Lit(" reg_key "), Decimal(OrZero(e.sregKey)),
                                 Lit(" set "), Str(e.setName), Lit(" ")]),
                           b0, calls, 0);
    offset, remain := CallWhen(buf, at, size, offset, remain, e.sregData.Some?,
                               [Lit("sreg_data "), Decimal(OrZero(e.sregData)), Lit(" ")], b0, calls, 1);
    offset, remain := CallWhen(buf, at, size, offset, remain, e.timeout.Some?,
                               [Lit("timeout "), Amount(e.timeout), Lit("ms ")], b0, calls, 2);
    Paused(b0, buf[..], at, size, calls, 3, offset, remain);
    offset, remain := PrintAll(buf, at, size, offset, remain, Lit("expr [ "), e.exprs, true, Lit("] "),
                               b0, Flat(calls[..3]));
    Continue(b0, buf[..], at, size, calls, 3, offset, remain);
    CallsDone(b0, buf[..], at, size, calls, offset, remain);
    ret := offset;
  }

  /** The loops over expressions, each in brackets. */
  method PrintAll(buf: array<byte>, at: nat, size: nat, offset: nat, remain: nat,
                  open: CString, es: seq<Expr>, noPrefix: bool, close: CString, ghost b0: bytes, ghost base: bytes)
    returns (offset': nat, remain': nat)
    requires Printing(b0, buf[..], at, size, base, offset, remain)
    modifies buf
    ensures Printing(b0, buf[..], at, size, base + BracketedAll(open, es, noPrefix, close), offset', remain')
    decreases es
  {
    hide Printing, Bracketed;
    offset', remain' := offset, remain;
    assert base + [] == base;
    for i := 0 to |es|
      invariant Printing(b0, buf[..], at, size, base + BracketedAll(open, es[..i], noPrefix, close), offset', remain')
    {
      ghost var before := BracketedAll(open, es[..i], noPrefix, close);
      offset', remain' := PrintBracketed(buf, at, size, offset', remain', open, es[i], noPrefix, close,
                                         b0, base + before);
      assert es[..i + 1][..i] == es[..i];
      ConcatAssociative(base, before, Bracketed(open, es[i], noPrefix, close));
    }
    assert es[..|es|] == es;
  }

  method PrintBracketed(buf: array<byte>, at: nat, size: nat, offset: nat, remain: nat,
                        open: CString, e: Expr, noPrefix: bool, close: CString, ghost b0: bytes, ghost base: bytes)
    returns (offset': nat, remain': nat)
    requires Printing(b0, buf[..], at, size, base, offset, remain)
    modifies buf
    ensures Printing(b0, buf[..], at, size, base + Bracketed(open, e, noPrefix, close), offset', remain')
    decreases e, 2
  {
    hide Printed, Shows, Flat, Lit, ExprText, Printing;
    var head := Flat([open, OpsName(OpsOf(e)), Lit(" ")]);
    offset', remain' := Print(buf, at, size, offset, remain, head, b0, base);
    ghost var b1 := buf[..];
    NestedStart(b0, b1, at, size, base + head, offset', remain');
    var ret := ExprSnprintf(buf, at + offset', remain', e, noPrefix);
    offset', remain' := Nested(ret, offset', remain', b0, b1, buf[..], at, size, base + head, ExprText(e, noPrefix));
    offset', remain' := Print(buf, at, size, offset', remain', close, b0, base + head + ExprText(e, noPrefix));
    FlatThree(base, head, ExprText(e, noPrefix), close);
  }

  /** nftnl_expr_snprintf */
  method ExprSnprintf(buf: array<byte>, at: nat, remain: nat, e: Expr, noPrefix: bool) returns (ret: int)
    requires remain > 0 ==> at + remain <= buf.Length
    modifies buf
    ensures ret == |ExprText(e, noPrefix)| && Printed(old(buf[..]), buf[..], at, remain, ExprText(e, noPrefix))
    decreases e, 1
  {
    hide Printed, Flat, Lit, ImmediateCalls, CmpCalls, LookupCalls, BitwiseText, DynsetCalls;
    ghost var b0 := buf[..];
    if remain > 0 {
      buf[at] := 0;
    }
    ghost var b1 := buf[..];
    assert Shows(b1, at, remain, []);
    match e {
      case Immediate(_, _, _, _, _) => ret := ImmediateSnprintf(buf, at, remain, e, noPrefix);
      case Cmp(_, _, _) => ret := CmpSnprintf(buf, at, remain, e);
      case Lookup(_, _, _, _, _) => ret := LookupSnprintf(buf, at, remain, e);
      case Bitwise(_, _, _, _, _, _, _) => ret := BitwiseSnprintf(buf, at, remain, e);
      case Dynset(_, _, _, _, _, _, _, _) => ret := DynsetSnprintf(buf, at, remain, e);
      case Notrack =>
        ret := 0;
        NothingPrinted(b1, at, remain);
    }
    PrintedBehind(b0, b1, buf[..], at, remain, ExprText(e, noPrefix));
    var _, offset := Account(ret, remain, 0);
    ret := offset;
  }

  // ---------- rules ----------

  /** One word of the first line of a rule, with the separator that is due. */
  method PrintWord(buf: array<byte>, at: nat, size: nat, offset: nat, remain: nat, sep: CString,
                   word: Option<CString>, ghost b0: bytes, ghost words: seq<Option<CString>>, ghost i: nat)
    returns (offset': nat, remain': nat, sep': CString)
    requires i < |words| && words[i] == word && sep == Separator(words[..i])
    requires Printing(b0, buf[..], at, size, Joined(words[..i]), offset, remain)
    modifies buf
    ensures sep' == Separator(words[..i + 1])
    ensures Printing(b0, buf[..], at, size, Joined(words[..i + 1]), offset', remain')
  {
    hide Printing, Flat, Lit;
    offset', remain', sep' := offset, remain, sep;
    assert words[..i + 1][..i] == words[..i];
    if word.Some? {
      offset', remain' := Print(buf, at, size, offset, remain, Flat([sep, word.value]), b0, Joined(words[..i]));
      sep' := Lit(" ");
    }
  }

  /** The user data of a rule or of an element: printable characters as they are, the
      others in hexadecimal. */
  method PrintUserdata(buf: array<byte>, at: nat, size: nat, offset: nat, remain: nat, userdata: Option<bytes>,
                       ghost b0: bytes, ghost base: bytes)
    returns (offset': nat, remain': nat)
    requires Printing(b0, buf[..], at, size, base, offset, remain)
    modifies buf
    ensures Printing(b0, buf[..], at, size, base + Flat(UserdataCalls(userdata)), offset', remain')
  {
    hide Printing, Lit, CharText;
    offset', remain' := offset, remain;
    if userdata.None? || userdata.value == [] {
      assert base + [] == base;
      return;
    }
    var user := userdata.value;
    ghost var open, chars := Lit("  userdata = { "), CharsText(user);
    offset', remain' := Print(buf, at, size, offset', remain', Lit("  userdata = { "), b0, base);
    assert base + open + [] == base + open;
    for i := 0 to |user|
      invariant Printing(b0, buf[..], at, size, base + open + CharsText(user[..i]), offset', remain')
    {
      offset', remain' := Print(buf, at, size, offset', remain', CharText(user[i]),
                                b0, base + open + CharsText(user[..i]));
      assert user[..i + 1][..i] == user[..i];
      ConcatAssociative(base + open, CharsText(user[..i]), CharText(user[i]));
    }
    assert user[..|user|] == user;
    offset', remain' := Print(buf, at, size, offset', remain', Lit(" }"), b0, base + open + chars);
    FlatThree(base, open, chars, Lit(" }"));
  }

  /** The first line of a rule. */
  method PrintWords(buf: array<byte>, at: nat, size: nat, r: RuleValue) returns (offset: nat, remain: nat)
    requires Shows(buf[..], at, size, [])
    modifies buf
    ensures Printing(old(buf[..]), buf[..], at, size, Joined(RuleWords(r)), offset, remain)
  {
    hide Printing, Printed, Shows, Lit, Decimal, FamilyName, Joined, Separator, Flat;
    ghost var b0, words := buf[..], RuleWords(r);
    var sep: CString := [];
    offset, remain := 0, size;
    PrintingStart(b0, at, size);
    NoWords(words);
    offset, remain, sep := PrintWord(buf, at, size, offset, remain, sep,
      if r.family.Some? then Some(FamilyName(r.family.value)) else None, b0, words, 0);
    offset, remain, sep := PrintWord(buf, at, size, offset, remain, sep, r.table, b0, words, 1);
    offset, remain, sep := PrintWord(buf, at, size, offset, remain, sep, r.chain, b0, words, 2);
    offset, remain, sep := PrintWord(buf, at, size, offset, remain, sep,
      if r.handle.Some? then Some(Decimal(r.handle.value)) else None, b0, words, 3);
    offset, remain, sep := PrintWord(buf, at, size, offset, remain, sep,
      if r.position.Some? then Some(Decimal(r.position.value)) else None, b0, words, 4);
    offset, remain, sep := PrintWord(buf, at, size, offset, remain, sep,
      if r.id.Some? then Some(Decimal(r.id.value)) else None, b0, words, 5);
    offset, remain, sep := PrintWord(buf, at, size, offset, remain, sep,
      if r.positionId.Some? then Some(Decimal(r.positionId.value)) else None, b0, words, 6);
    assert words[..7] == words;
  }

  lemma NoWords(words: seq<Option<CString>>)
    ensures Joined(words[..0]) == Separator(words[..0]) == []
  {
  }

  /** nftnl_rule_snprintf_default */
  method RuleSnprintfDefault(buf: array<byte>, at: nat, size: nat, r: RuleValue) returns (ret: int)
    requires Shows(buf[..], at, size, [])
    modifies buf
    ensures ret == |RuleText(r)| && Printed(old(buf[..]), buf[..], at, size, RuleText(r))
  {
    hide Printing, Printed, Shows, Lit, Calling, Flat, BracketedAll, Joined, RuleWords, UserdataCalls;
    ghost var b0, calls := buf[..], RuleCalls(r);
    CallsStart(b0, at, size, calls);
    var offset, remain := PrintWords(buf, at, size, r);
    FirstCall(calls);
    Continue(b0, buf[..], at, size, calls, 0, offset, remain);
    offset, remain := Call(buf, at, size, offset, remain, Lit("\n"), b0, calls, 1);
    Paused(b0, buf[..], at, size, calls, 2, offset, remain);
    offset, remain := PrintAll(buf, at, size, offset, remain, Lit("  [ "), r.exprs, false, Lit("]\n"),
                               b0, Flat(calls[..2]));
    Continue(b0, buf[..], at, size, calls, 2, offset, remain);
    Paused(b0, buf[..], at, size, calls, 3, offset, remain);
    offset, remain := PrintUserdata(buf, at, size, offset, remain, r.userdata, b0, Flat(calls[..3]));
    Continue(b0, buf[..], at, size, calls, 3, offset, remain);
    CallsDone(b0, buf[..], at, size, calls, offset, remain);
    ret := offset;
  }

  lemma FirstCall(calls: seq<CString>)
    requires calls != []
    ensures Flat(calls[..0]) + calls[0] == calls[0]
  {
  }

  const NFTNL_OUTPUT_DEFAULT := 0

  /** nftnl_rule_snprintf, with nftnl_rule_cmd_snprintf inside. */
  method RuleSnprintf(buf: array<byte>, size: nat, r: RuleValue, typ: u32) returns (ret: int)
    requires size <= buf.Length
    modifies buf
    ensures typ != NFTNL_OUTPUT_DEFAULT ==> ret == -1
    ensures typ == NFTNL_OUTPUT_DEFAULT ==>
      ret == |RuleText(r)| && Printed(old(buf[..]), buf[..], 0, size, RuleText(r))
  {
    hide RuleText, Printed;
    ghost var b0 := buf[..];
    if size > 0 {
      buf[0] := 0;
    }
    ghost var b1 := buf[..];
    if typ != NFTNL_OUTPUT_DEFAULT {
      return -1;
    }
    ret := RuleSnprintfDefault(buf, 0, size, r);
    PrintedBehind(b0, b1, buf[..], 0, size, RuleText(r));
    var _, offset := Account(ret, size, 0);
    ret := offset;
  }

  // ---------- set elements and sets ----------

  /** nftnl_set_elem_snprintf_default */
  method ElemSnprintf(buf: array<byte>, at: nat, size: nat, e: SetElem) returns (ret: int)
    requires Shows(buf[..], at, size, [])
    modifies buf
    ensures ret == |ElemText(e)| && Printed(old(buf[..]), buf[..], at, size, ElemText(e))
  {
    hide Printing, Printed, Shows, Lit, Calling, Flat, ValueText, VerdictCalls, UserdataCalls, Decimal;
    ghost var b0, calls := buf[..], ElemCalls(e);
    var offset, remain := 0, size;
    CallsStart(b0, at, size, calls);
    offset, remain := Call(buf, at, size, offset, remain, Lit("element "), b0, calls, 0);
    offset, remain := CallValue(buf, at, size, offset, remain, e.key, true, b0, calls, 1);
    if e.keyEnd.Some? {
      offset, remain := Call(buf, at, size, offset, remain, Lit(" - "), b0, calls, 2);
      offset, remain := CallValue(buf, at, size, offset, remain, e.keyEnd, true, b0, calls, 3);
    } else {
      SkipCall(b0, buf[..], at, size, calls, 2, offset, remain);
      SkipCall(b0, buf[..], at, size, calls, 3, offset, remain);
    }
    offset, remain := Call(buf, at, size, offset, remain, Lit(" : "), b0, calls, 4);
    if e.verdict.Some? {
      offset, remain := CallVerdict(buf, at, size, offset, remain, e.verdict, e.chain, b0, calls, 5);
    } else {
      offset, remain := CallValue(buf, at, size, offset, remain, e.data, true, b0, calls, 5);
    }
    offset, remain := Call(buf, at, size, offset, remain, Flat([Decimal(OrZero(e.flags)), Lit(" [end]")]),
                           b0, calls, 6);
    Paused(b0, buf[..], at, size, calls, 7, offset, remain);
    offset, remain := PrintUserdata(buf, at, size, offset, remain, e.userdata, b0, Flat(calls[..7]));
    Continue(b0, buf[..], at, size, calls, 7, offset, remain);
    CallsDone(b0, buf[..], at, size, calls, offset, remain);
    ret := offset;
  }

  /** The loop over the elements of a set. */
  method PrintElems(buf: array<byte>, at: nat, size: nat, offset: nat, remain: nat, es: seq<SetElem>,
                    ghost b0: bytes, ghost base: bytes)
    returns (offset': nat, remain': nat)
    requires Printing(b0, buf[..], at, size, base, offset, remain)
    modifies buf
    ensures Printing(b0, buf[..], at, size, base + ElemLines(es), offset', remain')
  {
    hide Printing, ElemText, Lit;
    offset', remain' := offset, remain;
    assert base + [] == base;
    for i := 0 to |es|
      invariant Printing(b0, buf[..], at, size, base + ElemLines(es[..i]), offset', remain')
    {
      ghost var before := ElemLines(es[..i]);
      offset', remain' := PrintElem(buf, at, size, offset', remain', es[i], b0, base + before);
      assert es[..i + 1][..i] == es[..i];
      ConcatAssociative(base, before, Flat([Lit("\t"), ElemText(es[i])]));
    }
    assert es[..|es|] == es;
  }

  method PrintElem(buf: array<byte>, at: nat, size: nat, offset: nat, remain: nat, e: SetElem,
                   ghost b0: bytes, ghost base: bytes)
    returns (offset': nat, remain': nat)
    requires Printing(b0, buf[..], at, size, base, offset, remain)
    modifies buf
    ensures Printing(b0, buf[..], at, size, base + Flat([Lit("\t"), ElemText(e)]), offset', remain')
  {
    hide Printing, Printed, Shows, ElemText, Lit, Flat;
    ghost var tab := Lit("\t");
    offset', remain' := Print(buf, at, size, offset, remain, Lit("\t"), b0, base);
    ghost var b1 := buf[..];
    NestedStart(b0, b1, at, size, base + tab, offset', remain');
    var ret := ElemSnprintf(buf, at + offset', remain', e);
    offset', remain' := Nested(ret, offset', remain', b0, b1, buf[..], at, size, base + tab, ElemText(e));
    FlatTwo(base, tab, ElemText(e));
  }

  /** nftnl_set_snprintf_default */
  method SetSnprintfDefault(buf: array<byte>, at: nat, size: nat, s: SetValue) returns (ret: int)
    requires Shows(buf[..], at, size, [])
    modifies buf
    ensures ret == |SetText(s)| && Printed(old(buf[..]), buf[..], at, size, SetText(s))
  {
    hide Printing, Printed, Shows, Lit, Calling, Flat, Decimal, Hex, Str, Amount, ElemLines;
    ghost var b0, calls := buf[..], SetCalls(s);
    var offset, remain := 0, size;
    CallsStart(b0, at, size, calls);
    offset, remain := Call(buf, at, size, offset, remain,
                           Flat([Str(s.name), Lit(" "), Str(s.table), Lit(" "), Hex(OrZero(s.setFlags))]),
                           b0, calls, 0);
    offset, remain := CallWhen(buf, at, size, offset, remain, s.timeout.Some?,
                               [Lit(" timeout "), Amount(s.timeout), Lit("ms")], b0, calls, 1);
    offset, remain := CallWhen(buf, at, size, offset, remain, s.gcInterval.Some?,
                               [Lit(" gc_interval "), Decimal(OrZero(s.gcInterval)), Lit("ms")], b0, calls, 2);
    offset, remain := CallWhen(buf, at, size, offset, remain, s.policy.Some?,
                               [Lit(" policy "), Decimal(OrZero(s.policy))], b0, calls, 3);
    offset, remain := CallWhen(buf, at, size, offset, remain, s.descSize.Some?,
                               [Lit(" size "), Decimal(OrZero(s.descSize))], b0, calls, 4);
    if s.elems == [] {
      NoElems();
      SkipCall(b0, buf[..], at, size, calls, 5, offset, remain);
      SkipCall(b0, buf[..], at, size, calls, 6, offset, remain);
      CallsDone(b0, buf[..], at, size, calls, offset, remain);
      return offset;
    }
    offset, remain := CallWhen(buf, at, size, offset, remain, true, [Lit("\n")], b0, calls, 5);
    Paused(b0, buf[..], at, size, calls, 6, offset, remain);
    offset, remain := PrintElems(buf, at, size, offset, remain, s.elems, b0, Flat(calls[..6]));
    Continue(b0, buf[..], at, size, calls, 6, offset, remain);
    CallsDone(b0, buf[..], at, size, calls, offset, remain);
    ret := offset;
  }

  lemma NoElems()
    ensures ElemLines([]) == []
  {
  }

  /** nftnl_set_snprintf, with nftnl_set_cmd_snprintf inside. */
  method SetSnprintf(buf: array<byte>, size: nat, s: SetValue, typ: u32) returns (ret: int)
    requires size <= buf.Length
    modifies buf
    ensures typ != NFTNL_OUTPUT_DEFAULT ==> ret == -1
    ensures typ == NFTNL_OUTPUT_DEFAULT ==>
      ret == |SetText(s)| && Printed(old(buf[..]), buf[..], 0, size, SetText(s))
  {
    hide SetText, Printed;
    ghost var b0 := buf[..];
    if size > 0 {
      buf[0] := 0;
    }
    ghost var b1 := buf[..];
    if typ != NFTNL_OUTPUT_DEFAULT {
      return -1;
    }
    ret := SetSnprintfDefault(buf, 0, size, s);
    PrintedBehind(b0, b1, buf[..], 0, size, SetText(s));
    var _, offset := Account(ret, size, 0);
    ret := offset;
  }
}
