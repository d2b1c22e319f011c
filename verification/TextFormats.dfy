/** The texts of the printers, stated with the format strings of the library's snprintf
    calls and its tables of names, from the front and independently of how `Texts` puts
    them together. */
module TextFormats {
  import opened Wrappers
  import opened Bytes
  import opened Exprs
  import opened Rules
  import opened SetElems
  import opened Texts
  import opened Printer
  import opened Formats

  // ---------- names ----------

  lemma VerdictNames()
    ensures VerdictName(0) == Lit("drop") && VerdictName(1) == Lit("accept") && VerdictName(2) == Lit("stolen")
    ensures VerdictName(3) == Lit("queue") && VerdictName(4) == Lit("repeat") && VerdictName(5) == Lit("stop")
    ensures VerdictName(0xFFFF_FFFF) == Lit("continue") && VerdictName(0xFFFF_FFFE) == Lit("break")
    ensures VerdictName(0xFFFF_FFFD) == Lit("jump") && VerdictName(0xFFFF_FFFC) == Lit("goto")
    ensures VerdictName(0xFFFF_FFFB) == Lit("return")
    ensures forall code: u32 :: 5 < code < 0xFFFF_FFFB ==> VerdictName(code) == Lit("unknown")
  {
    hide Lit;
  }

  lemma OtherNames()
    ensures CmpName(0) == Lit("eq") && CmpName(1) == Lit("neq") && CmpName(2) == Lit("lt") && CmpName(3) == Lit("lte")
    ensures CmpName(4) == Lit("gt") && CmpName(5) == Lit("gte")
    ensures forall op: nat :: op > 5 ==> CmpName(op) == Lit("unknown")
    ensures DynsetOpName(0) == Lit("add") && DynsetOpName(1) == Lit("update") && DynsetOpName(2) == Lit("delete")
    ensures forall op: nat :: op > 2 ==> DynsetOpName(op) == Lit("unknown")
    ensures FamilyName(1) == Lit("inet") && FamilyName(2) == Lit("ip") && FamilyName(3) == Lit("arp")
    ensures FamilyName(5) == Lit("netdev") && FamilyName(7) == Lit("bridge") && FamilyName(10) == Lit("ip6")
    ensures forall f: u32 :: f !in {1, 2, 3, 5, 7, 10} ==> FamilyName(f) == Lit("unknown")
  {
    hide Lit;
  }

  /** A literal is its characters. */
  lemma {:induction false} LiteralIs(s: string)
    requires Plain(s)
    ensures |Lit(s)| == |s| && forall i :: 0 <= i < |s| ==> Lit(s)[i] == s[i] as int
  {
    hide Lit;
    if s == [] {
      LitNothing();
    } else {
      LitCons(s[0], s[1..]);
      assert [s[0]] + s[1..] == s;
      LiteralIs(s[1..]);
    }
  }

  // ---------- data registers ----------

  lemma HexByteSplit(n: nat, c: byte, width: nat)
    ensures HexPadded(0x100 * n + c, width + 2) == HexPadded(n, width) + HexPadded(c, 2)
  {
    var x := 0x100 * n + c;
    assert x / 16 == 16 * n + c / 16 && x % 16 == c % 16;
    assert x / 16 / 16 == n && x / 16 % 16 == c / 16;
    assert HexPadded(c, 2) == HexPadded(c / 16, 1) + [Digit(c % 16)];
    assert HexPadded(c / 16, 1) == [] + [Digit(c / 16)];
    assert HexPadded(x, width + 2) == HexPadded(x / 16, width + 1) + [Digit(c % 16)];
    assert HexPadded(x / 16, width + 1) == HexPadded(n, width) + [Digit(c / 16)];
  }

  /** Four bytes as they are printed: the last one first. */
  function FourBytes(a: byte, b: byte, c: byte, d: byte): bytes {
    HexPadded(d, 2) + HexPadded(c, 2) + HexPadded(b, 2) + HexPadded(a, 2)
  }

  lemma WordDigits(a: byte, b: byte, c: byte, d: byte)
    ensures HexPadded(a + 0x100 * b + 0x1_0000 * c + 0x100_0000 * d, 8) == FourBytes(a, b, c, d)
  {
    hide HexPadded;
    HexByteSplit(b + 0x100 * c + 0x1_0000 * d, a, 6);
    HexByteSplit(c + 0x100 * d, b, 4);
    HexByteSplit(d, c, 2);
    assert a + 0x100 * b + 0x1_0000 * c + 0x100_0000 * d == 0x100 * (b + 0x100 * c + 0x1_0000 * d) + a;
    assert b + 0x100 * c + 0x1_0000 * d == 0x100 * (c + 0x100 * d) + b;
  }

  function Prefix(noPrefix: bool): CString {
    if noPrefix then [] else Lit("0x")
  }

  /** The text of a value, four bytes at a time; a last incomplete word is filled with 0. */
  function Words(v: bytes, noPrefix: bool): bytes {
    if v == [] then []
    else Prefix(noPrefix) + FourBytes(v[0], ByteAt(v, 1), ByteAt(v, 2), ByteAt(v, 3)) + Lit(" ")
         + if |v| > 4 then Words(v[4..], noPrefix) else []
  }

  lemma WordTextIs(v: RegValue, noPrefix: bool, i: nat)
    ensures WordText(v, noPrefix, i)
         == Prefix(noPrefix)
            + FourBytes(ByteAt(v, 4 * i), ByteAt(v, 4 * i + 1), ByteAt(v, 4 * i + 2), ByteAt(v, 4 * i + 3))
            + Lit(" ")
    ensures WordText(v, noPrefix, i) == Expand("%s%.8x ", [Text(Prefix(noPrefix)), Num(Word(v, i))])
  {
    hide Lit, Flat, HexPadded, ByteAt, Expand;
    WordDigits(ByteAt(v, 4 * i), ByteAt(v, 4 * i + 1), ByteAt(v, 4 * i + 2), ByteAt(v, 4 * i + 3));
    FlatIs3(Prefix(noPrefix), HexPadded(Word(v, i), 8), Lit(" "));
    WordFormat(Prefix(noPrefix), Word(v, i));
  }

  lemma FlatIs2(a: CString, b: CString)
    ensures Flat([a, b]) == a + b
  {
    TwoCalls(a, b);
  }

  lemma FlatIs3(a: CString, b: CString, c: CString)
    ensures Flat([a, b, c]) == a + b + c
  {
    FlatStep([a, b, c], 2);
    assert [a, b, c][..3] == [a, b, c] && [a, b, c][..2] == [a, b];
    TwoCalls(a, b);
  }

  lemma FlatIs4(a: CString, b: CString, c: CString, d: CString)
    ensures Flat([a, b, c, d]) == a + b + c + d
  {
    var all := [a, b, c, d];
    FlatStep(all, 3);
    assert all[..4] == all && all[..3] == [a, b, c];
    FlatIs3(a, b, c);
  }

  /** The words behind the first are the words of the bytes behind the first four. */
  lemma {:induction false} WordsFront(v: RegValue, tail: RegValue, noPrefix: bool, n: nat)
    requires n > 0 && tail == if |v| > 4 then v[4..] else []
    ensures WordsText(v, noPrefix, n) == WordText(v, noPrefix, 0) + WordsText(tail, noPrefix, n - 1)
  {
    hide WordText;
    if n == 1 {
      assert [] + WordText(v, noPrefix, 0) == WordText(v, noPrefix, 0) + [];
    } else {
      WordsFront(v, tail, noPrefix, n - 1);
      SameWord(v, tail, noPrefix, n - 1);
      ConcatAssociative(WordText(v, noPrefix, 0), WordsText(tail, noPrefix, n - 2), WordText(v, noPrefix, n - 1));
    }
  }

  lemma SameWord(v: RegValue, tail: RegValue, noPrefix: bool, i: nat)
    requires i > 0 && tail == if |v| > 4 then v[4..] else []
    ensures WordText(v, noPrefix, i) == WordText(tail, noPrefix, i - 1)
  {
    assert forall k: nat :: k >= 4 ==> ByteAt(v, k) == ByteAt(tail, k - 4);
    assert 4 * i - 4 == 4 * (i - 1);
  }

  /** A value is printed word by word, each from its last byte to its first. */
  lemma {:induction false} ValueIs(v: RegValue, noPrefix: bool)
    ensures ValueText(Some(v), noPrefix) == Words(v, noPrefix)
    decreases |v|
  {
    hide WordText, Lit, HexPadded;
    if v != [] {
      var tail: RegValue := if |v| > 4 then v[4..] else [];
      ValueIs(tail, noPrefix);
      WordsFront(v, tail, noPrefix, WordCount(v));
      WordTextIs(v, noPrefix, 0);
      assert WordCount(tail) == WordCount(v) - 1;
      assert ByteAt(v, 0) == v[0];
    }
  }

  lemma NoValue(noPrefix: bool)
    ensures ValueText(None, noPrefix) == []
  {
  }

  /** The text of a verdict: its name and, if there is one, the chain. */
  function ShownVerdict(code: Option<u32>, chain: Option<CString>): bytes {
    Expand("%s ", [Text(VerdictName(OrZero(code)))])
      + if chain.Some? then Expand("-> %s ", [Text(chain.value)]) else []
  }

  lemma VerdictIs(code: Option<u32>, chain: Option<CString>)
    ensures Flat(VerdictCalls(code, chain)) == ShownVerdict(code, chain)
  {
    hide Lit, VerdictName, Expand, Flat;
    NameFormat(VerdictName(OrZero(code)));
    if chain.Some? {
      ChainFormat(chain.value);
    }
    FlatIs2(VerdictCalls(code, chain)[0], VerdictCalls(code, chain)[1]);
  }

  // ---------- expressions ----------

  /** What the calls of a printer write, from the first to the last. */
  function Run(calls: seq<bytes>): bytes {
    if calls == [] then [] else calls[0] + Run(calls[1..])
  }

  lemma {:induction false} RunIsFlat(calls: seq<CString>)
    ensures Flat(calls) == Run(calls)
  {
    if calls != [] {
      RunIsFlat(calls[1..]);
      FlatCons(calls[0], calls[1..]);
      assert [calls[0]] + calls[1..] == calls;
    }
  }

  /** A number that is shown only when it is set. */
  function Optional(fmt: string, shown: bool, n: nat): bytes {
    if shown then Expand(fmt, [Num(n)]) else []
  }

  function OrZero64(v: Option<u64>): u64 {
    if v.Some? then v.value else 0
  }

  function ShownValue(v: Option<RegValue>, noPrefix: bool): bytes {
    if v.Some? then Words(v.value, noPrefix) else []
  }

  lemma ValueShown(v: Option<RegValue>, noPrefix: bool)
    ensures ValueText(v, noPrefix) == ShownValue(v, noPrefix)
  {
    hide Words;
    if v.Some? {
      ValueIs(v.value, noPrefix);
    }
  }

  function Immediately(e: Expr, noPrefix: bool): seq<bytes>
    requires e.Immediate?
  {
    [ Expand("reg %u ", [Num(OrZero(e.dreg))]),
      if e.data.Some? then ShownValue(e.data, noPrefix)
      else if e.verdict.Some? || e.chain.Some? then ShownVerdict(e.verdict, e.chain)
      else [] ]
  }

  lemma ImmediateShown(e: Expr, noPrefix: bool)
    requires e.Immediate?
    ensures ImmediateCalls(e, noPrefix) == Immediately(e, noPrefix)
  {
    hide Lit, Flat, Expand, Decimal, VerdictCalls, ShownVerdict, ValueText, ShownValue;
    RegFormat(OrZero(e.dreg));
    ValueShown(e.data, noPrefix);
    VerdictIs(e.verdict, e.chain);
  }

  lemma CmpShown(e: Expr)
    requires e.Cmp?
    ensures CmpCalls(e)
         == [ Expand("%s reg %u ", [Text(CmpName(OrZero(e.op))), Num(OrZero(e.sreg))]), ShownValue(e.data, false) ]
  {
    hide Lit, Flat, Expand, Decimal, CmpName, ValueText, ShownValue;
    CmpFormat(CmpName(OrZero(e.op)), OrZero(e.sreg));
    ValueShown(e.data, false);
  }

  lemma LookupShown(e: Expr)
    requires e.Lookup?
    ensures LookupCalls(e)
         == [ Expand("reg %u set %s ", [Num(OrZero(e.sreg)), Text(Str(e.setName))]),
              Optional("dreg %u ", e.dreg.Some?, OrZero(e.dreg)),
              Optional("0x%x ", e.lookupFlags.Some?, OrZero(e.lookupFlags)) ]
  {
    hide Lit, Flat, Expand, Decimal, Hex, Str;
    RegSetFormat(OrZero(e.sreg), Str(e.setName));
    DregFormat(OrZero(e.dreg));
    HexFormat(OrZero(e.lookupFlags));
  }

  /** A mask and xor, or a shift by a value. */
  function Bits(e: Expr): seq<bytes>
    requires e.Bitwise?
  {
    var dreg, sreg, op := OrZero(e.dreg), OrZero(e.sreg), OrZero(e.op);
    if op == 0 then
      [ Expand("reg %u = ( reg %u & ", [Num(dreg), Num(sreg)]), ShownValue(e.mask, false), Lit(") ^ "),
        ShownValue(e.xor, false) ]
    else if op == 1 || op == 2 then
      [ Expand("reg %u = ( reg %u %s ", [Num(dreg), Num(sreg), Text(Lit(if op == 1 then "<<" else ">>"))]),
        ShownValue(e.data, false), Lit(") ") ]
    else []
  }

  lemma BitwiseShown(e: Expr)
    requires e.Bitwise?
    ensures BitwiseText(e) == Run(Bits(e))
  {
    hide Lit, Flat, Expand, Decimal, ValueText, ShownValue, Run;
    BoolFormat(OrZero(e.dreg), OrZero(e.sreg));
    ShiftFormat(OrZero(e.dreg), OrZero(e.sreg), Lit("<<"));
    ShiftFormat(OrZero(e.dreg), OrZero(e.sreg), Lit(">>"));
    ValueShown(e.mask, false);
    ValueShown(e.xor, false);
    ValueShown(e.data, false);
    RunIsFlat(BitwiseBoolCalls(e));
    RunIsFlat(BitwiseShiftCalls(e, Lit("<<")));
    RunIsFlat(BitwiseShiftCalls(e, Lit(">>")));
    EmptyRun();
  }

  /** The text of an expression, format by format. */
  function Shown(e: Expr, noPrefix: bool): bytes
    decreases e, 1
  {
    match e
    case Immediate(_, _, _, _, _) => Run(Immediately(e, noPrefix))
    case Cmp(sreg, op, data) =>
      Run([Expand("%s reg %u ", [Text(CmpName(OrZero(op))), Num(OrZero(sreg))]), ShownValue(data, false)])
    case Lookup(sreg, dreg, setName, _, flags) =>
      Run([Expand("reg %u set %s ", [Num(OrZero(sreg)), Text(Str(setName))]),
           Optional("dreg %u ", dreg.Some?, OrZero(dreg)),
           Optional("0x%x ", flags.Some?, OrZero(flags))])
    case Bitwise(_, _, _, _, _, _, _) => Run(Bits(e))
    case Dynset(sregKey, sregData, op, timeout, setName, _, exprs, _) =>
      Run([Expand("%s reg_key %u set %s ", [Text(DynsetOpName(OrZero(op))), Num(OrZero(sregKey)), Text(Str(setName))]),
           Optional("sreg_data %u ", sregData.Some?, OrZero(sregData)),
           Optional("timeout %lums ", timeout.Some?, OrZero64(timeout)),
           ShownList("expr [ %s ", exprs, true, "] ")])
    case Notrack => []
  }

  /** Expressions in brackets, the first one first. */
  function ShownList(fmt: string, es: seq<Expr>, noPrefix: bool, close: string): bytes
    decreases es
  {
    if es == [] then []
    else
      Expand(fmt, [Text(OpsName(OpsOf(es[0])))]) + Shown(es[0], noPrefix) + Expand(close, [])
        + ShownList(fmt, es[1..], noPrefix, close)
  }

  /** The printed text of any expression is what the formats of the source expand to. */
  lemma {:induction false} ExprIsShown(e: Expr, noPrefix: bool)
    ensures ExprText(e, noPrefix) == Shown(e, noPrefix)
    decreases e, 1
  {
    hide Lit, Flat, Expand, Decimal, Hex, Str, ValueText, ShownValue, CmpName, DynsetOpName, Run, Optional;
    hide ImmediateCalls, CmpCalls, LookupCalls, Immediately, DynsetCalls, BitwiseText, Bits, BracketedAll, ShownList;
    match e
    case Immediate(_, _, _, _, _) =>
      ImmediateShown(e, noPrefix);
      RunIsFlat(ImmediateCalls(e, noPrefix));
    case Cmp(_, _, _) =>
      CmpShown(e);
      RunIsFlat(CmpCalls(e));
    case Lookup(_, _, _, _, _) =>
      LookupShown(e);
      RunIsFlat(LookupCalls(e));
    case Bitwise(_, _, _, _, _, _, _) =>
      BitwiseShown(e);
    case Dynset(_, _, _, _, _, _, exprs, _) =>
      DynsetShown(e);
      RunIsFlat(DynsetCalls(e));
      InnerShown(exprs);
    case Notrack =>
  }

  lemma DynsetShown(e: Expr)
    requires e.Dynset?
    ensures DynsetCalls(e)
         == [ Expand("%s reg_key %u set %s ",
                     [Text(DynsetOpName(OrZero(e.op))), Num(OrZero(e.sregKey)), Text(Str(e.setName))]),
              Optional("sreg_data %u ", e.sregData.Some?, OrZero(e.sregData)),
              Optional("timeout %lums ", e.timeout.Some?, OrZero64(e.timeout)),
              BracketedAll(Lit("expr [ "), e.exprs, true, Lit("] ")) ]
  {
    hide Lit, Flat, Expand, Decimal, Str, DynsetOpName, BracketedAll;
    DynsetFormat(DynsetOpName(OrZero(e.op)), OrZero(e.sregKey), Str(e.setName));
    SregFormat(OrZero(e.sregData));
    if e.timeout.Some? {
      TimeoutFormat(e.timeout.value);
    }
  }

  lemma {:induction false} InnerShown(es: seq<Expr>)
    ensures BracketedAll(Lit("expr [ "), es, true, Lit("] ")) == ShownList("expr [ %s ", es, true, "] ")
    decreases es
  {
    hide Lit, Flat, Expand, OpsName, ExprText, Shown, BracketedAll, Bracketed;
    if es == [] {
      NoBrackets(Lit("expr [ "), true, Lit("] "));
    } else {
      ExprIsShown(es[0], true);
      InnerShown(es[1..]);
      InnerFormat(OpsName(OpsOf(es[0])));
      PlainFormat("] ");
      BracketedIs(Lit("expr [ "), es[0], true, Lit("] "));
      BracketedFront(Lit("expr [ "), es, true, Lit("] "));
    }
  }

  lemma {:induction false} OuterShown(es: seq<Expr>)
    ensures BracketedAll(Lit("  [ "), es, false, Lit("]\n")) == ShownList("  [ %s ", es, false, "]\n")
    decreases es
  {
    hide Lit, Flat, Expand, OpsName, ExprText, Shown, BracketedAll, Bracketed;
    if es == [] {
      NoBrackets(Lit("  [ "), false, Lit("]\n"));
    } else {
      ExprIsShown(es[0], false);
      OuterShown(es[1..]);
      OuterFormat(OpsName(OpsOf(es[0])));
      PlainFormat("]\n");
      BracketedIs(Lit("  [ "), es[0], false, Lit("]\n"));
      BracketedFront(Lit("  [ "), es, false, Lit("]\n"));
    }
  }

  lemma NoBrackets(open: CString, noPrefix: bool, close: CString)
    ensures BracketedAll(open, [], noPrefix, close) == []
  {
  }

  lemma BracketedIs(open: CString, e: Expr, noPrefix: bool, close: CString)
    ensures Bracketed(open, e, noPrefix, close)
         == Flat([open, OpsName(OpsOf(e)), Lit(" ")]) + ExprText(e, noPrefix) + close
  {
    hide Lit, Flat, OpsName, ExprText;
    FlatIs3(Flat([open, OpsName(OpsOf(e)), Lit(" ")]), ExprText(e, noPrefix), close);
  }

  lemma {:induction false} BracketedFront(open: CString, es: seq<Expr>, noPrefix: bool, close: CString)
    requires es != []
    ensures BracketedAll(open, es, noPrefix, close)
         == Bracketed(open, es[0], noPrefix, close) + BracketedAll(open, es[1..], noPrefix, close)
  {
    hide Bracketed;
    var n := |es| - 1;
    if n == 0 {
      assert es[..0] == [] && es[1..] == [];
    } else {
      BracketedFront(open, es[..n], noPrefix, close);
      assert es[..n][1..] == es[1..][..n - 1];
      ConcatAssociative(Bracketed(open, es[0], noPrefix, close), BracketedAll(open, es[1..n], noPrefix, close),
                        Bracketed(open, es[n], noPrefix, close));
    }
  }

  // ---------- user data ----------

  /** Printable characters as they are, any other as a hexadecimal escape. */
  function ShownChars(b: bytes): bytes {
    if b == [] then []
    else (if 32 <= b[0] <= 126 then [b[0]] else Expand("\\x%02hhx", [Num(b[0])])) + ShownChars(b[1..])
  }

  lemma {:induction false} CharsShown(b: bytes)
    ensures CharsText(b) == ShownChars(b)
  {
    hide Lit, Flat, Expand, HexPadded;
    if b != [] {
      CharsShown(b[1..]);
      CharsFront(b);
      ByteFormat(b[0]);
    }
  }

  lemma {:induction false} CharsFront(b: bytes)
    requires b != []
    ensures CharsText(b) == CharText(b[0]) + CharsText(b[1..])
  {
    hide CharText;
    var n := |b| - 1;
    if n == 0 {
      assert b[..0] == [] && b[1..] == [];
    } else {
      CharsFront(b[..n]);
      assert b[..n][1..] == b[1..][..n - 1];
      ConcatAssociative(CharText(b[0]), CharsText(b[1..n]), CharText(b[n]));
    }
  }

  function ShownUserdata(userdata: Option<bytes>): bytes {
    if userdata.None? || userdata.value == [] then []
    else Run([Lit("  userdata = { "), ShownChars(userdata.value), Lit(" }")])
  }

  lemma UserdataShown(userdata: Option<bytes>)
    ensures Flat(UserdataCalls(userdata)) == ShownUserdata(userdata)
  {
    hide Lit, CharsText, ShownChars, Run, Flat;
    RunIsFlat(UserdataCalls(userdata));
    if userdata.Some? {
      CharsShown(userdata.value);
    }
    EmptyRun();
  }

  lemma EmptyRun()
    ensures Run([]) == Flat([]) == []
  {
  }

  // ---------- rules ----------

  /** An attribute in the first line of a rule: the conversion it is shown with, and its
      value when it is set. */
  datatype Item = Item(conversion: string, arg: Option<Arg>)

  /** The items that are set; the separator is empty before the first one shown. */
  function Line(items: seq<Item>, sep: string): bytes {
    if items == [] then []
    else if items[0].arg.None? then Line(items[1..], sep)
    else Expand("%s" + items[0].conversion, [Text(Lit(sep)), items[0].arg.value]) + Line(items[1..], " ")
  }

  function TextArg(v: Option<CString>): Option<Arg> {
    if v.Some? then Some(Text(v.value)) else None
  }

  function NumArg(shown: bool, n: nat): Option<Arg> {
    if shown then Some(Num(n)) else None
  }

  function RuleItems(r: RuleValue): seq<Item> {
    [ Item("%s", if r.family.Some? then Some(Text(FamilyName(r.family.value))) else None),
      Item("%s", TextArg(r.table)),
      Item("%s", TextArg(r.chain)),
      Item("%lu", NumArg(r.handle.Some?, OrZero64(r.handle))),
      Item("%lu", NumArg(r.position.Some?, OrZero64(r.position))),
      Item("%u", NumArg(r.id.Some?, OrZero(r.id))),
      Item("%u", NumArg(r.positionId.Some?, OrZero(r.positionId))) ]
  }

  /** The words from the first on. */
  function JoinedFrom(words: seq<Option<CString>>, sep: CString): bytes {
    if words == [] then []
    else if words[0].None? then JoinedFrom(words[1..], sep)
    else sep + words[0].value + JoinedFrom(words[1..], Lit(" "))
  }

  lemma {:induction false} JoinedForward(before: seq<Option<CString>>, after: seq<Option<CString>>)
    ensures Joined(before + after) == Joined(before) + JoinedFrom(after, Separator(before))
    decreases |after|
  {
    hide Lit, Flat;
    if after == [] {
      assert before + after == before;
    } else {
      var word, shown := after[0], before + [after[0]];
      assert shown + after[1..] == before + after && shown[..|before|] == before;
      JoinedForward(shown, after[1..]);
      if word.Some? {
        FlatIs2(Separator(before), word.value);
        ConcatAssociative(Joined(before), Separator(before) + word.value, JoinedFrom(after[1..], Lit(" ")));
      }
    }
  }

  /** The word of an item. */
  predicate IsWord(item: Item, word: Option<CString>) {
    && (item.arg.Some? <==> word.Some?)
    && (word.Some? ==> Expand(item.conversion, [item.arg.value]) == word.value)
  }

  lemma {:induction false} LineForward(items: seq<Item>, words: seq<Option<CString>>, sep: string)
    requires |items| == |words| && forall i :: 0 <= i < |items| ==> IsWord(items[i], words[i])
    ensures JoinedFrom(words, Lit(sep)) == Line(items, sep)
  {
    hide Lit, Expand;
    if items != [] {
      assert IsWord(items[0], words[0]);
      if items[0].arg.None? {
        LineForward(items[1..], words[1..], sep);
      } else {
        LineForward(items[1..], words[1..], " ");
        ExpandPiece(S(Lit(sep)), items[0].conversion, [items[0].arg.value]);
        assert [Text(Lit(sep))] + [items[0].arg.value] == [Text(Lit(sep)), items[0].arg.value];
      }
    }
  }

  lemma Conversions(t: CString, n: nat)
    ensures Expand("%s", [Text(t)]) == t
    ensures Expand("%u", [Num(n)]) == Expand("%lu", [Num(n)]) == Decimal(n)
  {
    hide Decimal, Flat, Expand;
    One(S(t));
    One(U(n));
    One(LU(n));
    FlatIs1(t);
    FlatIs1(Decimal(n));
  }

  lemma FlatIs1(t: CString)
    ensures Flat([t]) == t
  {
    assert [t][..0] == [];
  }

  /** The first line of a rule shows family, table, chain, handle, position, id and
      position id, in this order and as far as they are set, one blank between two. */
  lemma LineIs(r: RuleValue)
    ensures Joined(RuleWords(r)) == Line(RuleItems(r), "")
  {
    hide Lit, Expand, Decimal, FamilyName, Line, JoinedFrom, Joined, RuleItems, RuleWords, IsWord;
    JoinedForward([], RuleWords(r));
    assert [] + RuleWords(r) == RuleWords(r);
    NothingJoined();
    LitNothing();
    ItemsAreWords(r, RuleItems(r), RuleWords(r));
    LineForward(RuleItems(r), RuleWords(r), "");
  }

  lemma ItemsAreWords(r: RuleValue, items: seq<Item>, words: seq<Option<CString>>)
    requires items == RuleItems(r) && words == RuleWords(r)
    ensures |items| == |words| == 7
    ensures forall i :: 0 <= i < 7 ==> IsWord(items[i], words[i])
  {
    hide Lit, Expand, Decimal, FamilyName, IsWord;
    TextItem(items[0], words[0]);
    TextItem(items[1], words[1]);
    TextItem(items[2], words[2]);
    NumItem(items[3], words[3]);
    NumItem(items[4], words[4]);
    NumItem(items[5], words[5]);
    NumItem(items[6], words[6]);
  }

  lemma TextItem(item: Item, word: Option<CString>)
    requires item.conversion == "%s" && item.arg == TextArg(word)
    ensures IsWord(item, word)
  {
    hide Expand;
    if word.Some? {
      Conversions(word.value, 0);
    }
  }

  lemma NumItem(item: Item, word: Option<CString>)
    requires item.conversion == "%u" || item.conversion == "%lu"
    requires item.arg.Some? <==> word.Some?
    requires word.Some? ==> item.arg.value.Num? && word.value == Decimal(item.arg.value.n)
    ensures IsWord(item, word)
  {
    hide Expand, Decimal;
    if word.Some? {
      Conversions([], item.arg.value.n);
    }
  }

  lemma NothingJoined()
    ensures Joined([]) == []
  {
  }

  /** The text of a rule: its line, its expressions in brackets and its user data. */
  lemma RuleIsShown(r: RuleValue)
    ensures RuleText(r)
         == Run([ Line(RuleItems(r), ""),
                  Lit("\n"),
                  ShownList("  [ %s ", r.exprs, false, "]\n"),
                  ShownUserdata(r.userdata) ])
  {
    hide Lit, Expand, Joined, RuleWords, RuleItems, Line, BracketedAll, ShownList, Flat, Run;
    hide UserdataCalls, ShownUserdata;
    LineIs(r);
    OuterShown(r.exprs);
    UserdataShown(r.userdata);
    RunIsFlat(RuleCalls(r));
  }

  // ---------- set elements and sets ----------

  function ElemParts(e: SetElem): seq<bytes> {
    [ Lit("element "),
      ShownValue(e.key, true),
      if e.keyEnd.Some? then Lit(" - ") + ShownValue(e.keyEnd, true) else [],
      Lit(" : "),
      if e.verdict.Some? then ShownVerdict(e.verdict, e.chain) else ShownValue(e.data, true),
      Expand("%u [end]", [Num(OrZero(e.flags))]),
      ShownUserdata(e.userdata) ]
  }

  function ShownElem(e: SetElem): bytes {
    Run(ElemParts(e))
  }

  lemma ElemIsShown(e: SetElem)
    ensures ElemText(e) == ShownElem(e)
  {
    hide Flat, Run, ElemCalls, ElemParts;
    var calls := ElemCalls(e);
    RunIsFlat(calls);
    ElemCallsAre(e, calls);
    MergeCalls(calls[..2], calls[2], calls[3], calls[4..]);
  }

  lemma ElemCallsAre(e: SetElem, calls: seq<CString>)
    requires calls == ElemCalls(e)
    ensures |calls| == 8 && calls == calls[..2] + [calls[2], calls[3]] + calls[4..]
    ensures ElemParts(e) == calls[..2] + [calls[2] + calls[3]] + calls[4..]
  {
    hide Lit, Expand, Flat, Run, ValueText, ShownValue, VerdictCalls, ShownVerdict, UserdataCalls, ShownUserdata;
    hide Decimal;
    ValueShown(e.key, true);
    ValueShown(e.keyEnd, true);
    ValueShown(e.data, true);
    VerdictIs(e.verdict, e.chain);
    EndFormat(OrZero(e.flags));
    UserdataShown(e.userdata);
    assert e.keyEnd.None? ==> calls[2] + calls[3] == [];
    assert ElemParts(e) == [calls[0], calls[1], calls[2] + calls[3], calls[4], calls[5], calls[6], calls[7]];
  }

  /** Two calls in a row write what one call with both texts writes. */
  lemma {:induction false} MergeCalls(before: seq<bytes>, a: bytes, b: bytes, after: seq<bytes>)
    ensures Run(before + [a, b] + after) == Run(before + [a + b] + after)
  {
    if before == [] {
      assert ([a, b] + after)[1..] == [b] + after && ([b] + after)[1..] == after;
      assert ([a + b] + after)[1..] == after;
      assert [] + [a, b] + after == [a, b] + after && [] + [a + b] + after == [a + b] + after;
      ConcatAssociative(a, b, Run(after));
    } else {
      MergeCalls(before[1..], a, b, after);
      assert (before + [a, b] + after)[1..] == before[1..] + [a, b] + after;
      assert (before + [a + b] + after)[1..] == before[1..] + [a + b] + after;
    }
  }

  /** Each element behind a tab. */
  function ShownElems(es: seq<SetElem>): bytes {
    if es == [] then [] else Lit("\t") + ShownElem(es[0]) + ShownElems(es[1..])
  }

  lemma {:induction false} ElemsShown(es: seq<SetElem>)
    ensures ElemLines(es) == ShownElems(es)
  {
    hide Lit, ElemText, ShownElem, Flat;
    if es != [] {
      ElemsShown(es[1..]);
      ElemIsShown(es[0]);
      ElemsFront(es);
      FlatIs2(Lit("\t"), ElemText(es[0]));
    }
  }

  lemma {:induction false} ElemsFront(es: seq<SetElem>)
    requires es != []
    ensures ElemLines(es) == Flat([Lit("\t"), ElemText(es[0])]) + ElemLines(es[1..])
  {
    hide Lit, ElemText, Flat;
    var n := |es| - 1;
    if n == 0 {
      assert es[..0] == [] && es[1..] == [];
    } else {
      ElemsFront(es[..n]);
      assert es[..n][1..] == es[1..][..n - 1];
      ConcatAssociative(Flat([Lit("\t"), ElemText(es[0])]), ElemLines(es[1..n]), Flat([Lit("\t"), ElemText(es[n])]));
    }
  }

  /** The text of a set: a line of attributes, then its elements. */
  lemma SetIsShown(s: SetValue)
    ensures SetText(s)
         == Run([ Expand("%s %s %x", [Text(Str(s.name)), Text(Str(s.table)), Num(OrZero(s.setFlags))]),
                  Optional(" timeout %lums", s.timeout.Some?, OrZero64(s.timeout)),
                  Optional(" gc_interval %ums", s.gcInterval.Some?, OrZero(s.gcInterval)),
                  Optional(" policy %u", s.policy.Some?, OrZero(s.policy)),
                  Optional(" size %u", s.descSize.Some?, OrZero(s.descSize)),
                  if s.elems == [] then [] else Lit("\n"),
                  ShownElems(s.elems) ])
  {
    hide Lit, Expand, Flat, Run, Str, Decimal, Hex, ElemLines, ShownElems;
    RunIsFlat(SetCalls(s));
    SetFormat(Str(s.name), Str(s.table), OrZero(s.setFlags));
    if s.timeout.Some? {
      SetTimeoutFormat(s.timeout.value);
    }
    GcFormat(OrZero(s.gcInterval));
    PolicyFormat(OrZero(s.policy));
    SizeFormat(OrZero(s.descSize));
    FlatIs1(Lit("\n"));
    ElemsShown(s.elems);
  }

  /** A null pointer given for %s. */
  lemma NullShown()
    ensures Str(None) == Lit("(null)") && Amount(None) == Decimal(0) && OrZero(None) == 0
  {
    hide Lit, Decimal;
  }
}
