/** The text of expressions, rules, set elements and sets: what the printers of the
    library produce in a buffer that is large enough. */
module Texts {
  import opened Wrappers
  import opened Bytes
  import opened Exprs
  import opened Rules
  import opened SetElems

  /** A C string literal. */
  function Lit(s: string): CString {
    CStr(seq(|s|, i requires 0 <= i < |s| => s[i] as int % 0x100))
  }

  /** What one format, or one call after the other, puts together. */
  function Flat(parts: seq<CString>): CString {
    if parts == [] then [] else Flat(parts[..|parts| - 1]) + parts[|parts| - 1]
  }

  /** A call that is made only for a set attribute. */
  function When(cond: bool, parts: seq<CString>): CString {
    if cond then Flat(parts) else []
  }

  // ---------- numbers ----------

  function Digit(d: nat): byte
    requires d < 16
  {
    if d < 10 then 48 + d else 87 + d
  }

  lemma DigitIs(d: nat)
    requires d < 16
    ensures Digit(d) == "0123456789abcdef"[d] as int
  {
  }

  function Digits(n: nat, base: nat): (t: CString)
    requires 2 <= base <= 16
    decreases n
  {
    if n < base then [Digit(n)] else Digits(n / base, base) + [Digit(n % base)]
  }

  /** The number that some digits denote. */
  function NumberOf(t: bytes, base: nat): int {
    if t == [] then 0
    else
      var last: int := t[|t| - 1];
      NumberOf(t[..|t| - 1], base) * base + if last < 58 then last - 48 else last - 87
  }

  lemma NumberStep(t: bytes, d: nat, base: nat)
    requires d < 16
    ensures NumberOf(t + [Digit(d)], base) == NumberOf(t, base) * base + d
  {
    assert (t + [Digit(d)])[..|t|] == t;
  }

  lemma DivideAndBack(n: nat, base: nat)
    requires base > 0
    ensures n / base * base + n % base == n
  {
  }

  /** The digits of a number denote it, and the first one is 0 only for the number 0. */
  lemma {:induction false} DigitsDenote(n: nat, base: nat)
    requires 2 <= base <= 16
    ensures NumberOf(Digits(n, base), base) == n
    ensures Digits(n, base) != [] && (Digits(n, base)[0] == '0' as int <==> n == 0)
    ensures n == 0 ==> |Digits(n, base)| == 1
    decreases n
  {
    hide NumberOf, Digit;
    if n < base {
      NumberStep([], n, base);
      NumberOfNothing(base);
      DigitIs(n);
      assert [] + [Digit(n)] == [Digit(n)];
    } else {
      DigitsDenote(n / base, base);
      NumberStep(Digits(n / base, base), n % base, base);
      DivideAndBack(n, base);
    }
  }

  lemma NumberOfNothing(base: nat)
    ensures NumberOf([], base) == 0
    ensures NumberOf([], base) * base == 0
  {
  }

  /** `%u` and `%PRIu64` */
  function Decimal(n: nat): CString {
    Digits(n, 10)
  }

  /** `%x` */
  function Hex(n: nat): CString {
    Digits(n, 16)
  }

  /** Zero-padded hexadecimal: `%.8x`, `%02hhx` */
  function HexPadded(n: nat, width: nat): (t: CString)
    ensures |t| == width
  {
    if width == 0 then [] else HexPadded(n / 16, width - 1) + [Digit(n % 16)]
  }

  function Pow16(n: nat): nat {
    if n == 0 then 1 else 16 * Pow16(n - 1)
  }

  /** Zero-padded digits denote the number too, as long as it fits their width. */
  lemma {:induction false} PaddedDenotes(n: nat, width: nat)
    requires n < Pow16(width)
    ensures |HexPadded(n, width)| == width && NumberOf(HexPadded(n, width), 16) == n
  {
    hide NumberOf, Digit;
    if width == 0 {
      NumberOfNothing(16);
    } else {
      PaddedDenotes(n / 16, width - 1);
      NumberStep(HexPadded(n / 16, width - 1), n % 16, 16);
    }
  }

  /** The value of an attribute that was never set is 0. */
  function OrZero(v: Option<u32>): u32 {
    if v.Some? then v.value else 0
  }

  /** A 64-bit number of milliseconds, 0 when never set. */
  function Amount(v: Option<u64>): CString {
    Decimal(if v.Some? then v.value else 0)
  }

  /** `%s`; a null pointer is printed as glibc prints it. */
  function Str(v: Option<CString>): CString {
    if v.Some? then v.value else Lit("(null)")
  }

  // ---------- names ----------

  function VerdictName(code: u32): CString {
    if code == NF_ACCEPT then Lit("accept")
    else if code == NF_DROP then Lit("drop")
    else if code == 2 then Lit("stolen")
    else if code == NF_QUEUE then Lit("queue")
    else if code == 4 then Lit("repeat")
    else if code == 5 then Lit("stop")
    else if code == NFT_RETURN then Lit("return")
    else if code == NFT_JUMP then Lit("jump")
    else if code == NFT_GOTO then Lit("goto")
    else if code == NFT_CONTINUE then Lit("continue")
    else if code == NFT_BREAK then Lit("break")
    else Lit("unknown")
  }

  function CmpName(op: nat): CString {
    match op
    case 0 => Lit("eq")
    case 1 => Lit("neq")
    case 2 => Lit("lt")
    case 3 => Lit("lte")
    case 4 => Lit("gt")
    case 5 => Lit("gte")
    case _ => Lit("unknown")
  }

  function DynsetOpName(op: nat): CString {
    match op
    case 0 => Lit("add")
    case 1 => Lit("update")
    case 2 => Lit("delete")
    case _ => Lit("unknown")
  }

  function FamilyName(family: u32): CString {
    match family
    case 1 => Lit("inet")
    case 2 => Lit("ip")
    case 3 => Lit("arp")
    case 5 => Lit("netdev")
    case 7 => Lit("bridge")
    case 10 => Lit("ip6")
    case _ => Lit("unknown")
  }

  // ---------- data registers ----------

  /** Word `i` of a register in host order; the bytes behind the value are 0. */
  function Word(v: RegValue, i: nat): nat {
    ByteAt(v, 4 * i) + 0x100 * ByteAt(v, 4 * i + 1)
      + 0x1_0000 * ByteAt(v, 4 * i + 2) + 0x100_0000 * ByteAt(v, 4 * i + 3)
  }

  function ByteAt(v: bytes, i: nat): byte {
    if i < |v| then v[i] else 0
  }

  function WordCount(v: RegValue): nat {
    (|v| + 3) / 4
  }

  /** The eight digits of a word denote the number that the four bytes of the value from
      `4 * i` on are in the memory of the host, with 0 for those behind its end. */
  lemma WordDenotes(v: RegValue, i: nat)
    ensures var n := NumberOf(HexPadded(Word(v, i), 8), 16);
      && 0 <= n < 0x1_0000_0000 && |LE32(n)| == 4
      && forall k :: 0 <= k < 4 ==> LE32(n)[k] == if 4 * i + k < |v| then v[4 * i + k] else 0
  {
    PowersOf16();
    PaddedDenotes(Word(v, i), 8);
    BytesOfWord(ByteAt(v, 4 * i), ByteAt(v, 4 * i + 1), ByteAt(v, 4 * i + 2), ByteAt(v, 4 * i + 3), Word(v, i));
  }

  lemma BytesOfWord(a: byte, b: byte, c: byte, d: byte, n: nat)
    requires n == a + 0x100 * b + 0x1_0000 * c + 0x100_0000 * d
    ensures n < 0x1_0000_0000 && LE32(n) == [a, b, c, d]
  {
    var lo: u16, hi: u16 := a + 0x100 * b, c + 0x100 * d;
    assert n == lo + 0x1_0000 * hi && n / 0x1_0000 == hi && n % 0x1_0000 == lo;
    assert LE16(lo) == [a, b] && LE16(hi) == [c, d];
  }

  /** The two digits of a character denote it. */
  lemma CharDenotes(c: byte)
    ensures NumberOf(HexPadded(c, 2), 16) == c
  {
    PowersOf16();
    PaddedDenotes(c, 2);
  }

  lemma PowersOf16()
    ensures Pow16(2) == 0x100 && Pow16(8) == 0x1_0000_0000
  {
    assert Pow16(4) == 0x1_0000;
  }

  function WordText(v: RegValue, noPrefix: bool, i: nat): CString {
    Flat([if noPrefix then [] else Lit("0x"), HexPadded(Word(v, i), 8), Lit(" ")])
  }

  /** The first `n` words of a value. */
  function WordsText(v: RegValue, noPrefix: bool, n: nat): CString {
    if n == 0 then [] else WordsText(v, noPrefix, n - 1) + WordText(v, noPrefix, n - 1)
  }

  function OrEmpty(v: Option<RegValue>): RegValue {
    if v.Some? then v.value else []
  }

  function ValueText(v: Option<RegValue>, noPrefix: bool): CString {
    WordsText(OrEmpty(v), noPrefix, WordCount(OrEmpty(v)))
  }

  lemma PrefixLength()
    ensures |Lit("0x")| == 2 && |Lit(" ")| == 1
  {
    assert CStr([48, 120]) == [48] + CStr([120]);
    assert seq(2, i requires 0 <= i < 2 => "0x"[i] as int % 0x100) == [48, 120];
    assert seq(1, i requires 0 <= i < 1 => " "[i] as int % 0x100) == [32];
  }

  lemma WordLength(v: RegValue, noPrefix: bool, i: nat)
    ensures |WordText(v, noPrefix, i)| == if noPrefix then 9 else 11
  {
    hide Lit;
    PrefixLength();
    var prefix: CString := if noPrefix then [] else Lit("0x");
    FlatLength(prefix, HexPadded(Word(v, i), 8), Lit(" "));
  }

  lemma TwoCalls(a: CString, b: CString)
    ensures Flat([a, b]) == a + b
  {
    assert [a, b][..1] == [a] && [a][..0] == [];
    assert Flat([a]) == [] + a == a;
  }

  lemma FlatLength(a: CString, b: CString, c: CString)
    ensures |Flat([a, b, c])| == |a| + |b| + |c|
  {
    assert [a, b, c][..2] == [a, b];
    TwoCalls(a, b);
  }

  lemma {:induction false} WordsLength(v: RegValue, noPrefix: bool, n: nat)
    ensures |WordsText(v, noPrefix, n)| == n * if noPrefix then 9 else 11
  {
    hide WordText;
    if n > 0 {
      WordsLength(v, noPrefix, n - 1);
      WordLength(v, noPrefix, n - 1);
    }
  }

  /** The prefix makes a difference exactly when there is a byte to print. */
  lemma PrefixShows(v: Option<RegValue>)
    ensures ValueText(v, true) == ValueText(v, false) <==> OrEmpty(v) == []
  {
    hide WordsText;
    var n := WordCount(OrEmpty(v));
    WordsLength(OrEmpty(v), true, n);
    WordsLength(OrEmpty(v), false, n);
    if n == 0 {
      assert ValueText(v, true) == [];
    }
  }

  function VerdictCalls(code: Option<u32>, chain: Option<CString>): seq<CString> {
    [ Flat([VerdictName(OrZero(code)), Lit(" ")]),
      When(chain.Some?, [Lit("-> "), Str(chain), Lit(" ")]) ]
  }

  // ---------- expressions ----------

  function ImmediateCalls(e: Expr, noPrefix: bool): seq<CString>
    requires e.Immediate?
  {
    [ Flat([Lit("reg "), Decimal(OrZero(e.dreg)), Lit(" ")]),
      if e.data.Some? then ValueText(e.data, noPrefix)
      else if e.verdict.Some? || e.chain.Some? then Flat(VerdictCalls(e.verdict, e.chain))
      else [] ]
  }

  function CmpCalls(e: Expr): seq<CString>
    requires e.Cmp?
  {
    [ Flat([CmpName(OrZero(e.op)), Lit(" reg "), Decimal(OrZero(e.sreg)), Lit(" ")]),
      ValueText(e.data, false) ]
  }

  function LookupCalls(e: Expr): seq<CString>
    requires e.Lookup?
  {
    [ Flat([Lit("reg "), Decimal(OrZero(e.sreg)), Lit(" set "), Str(e.setName), Lit(" ")]),
      When(e.dreg.Some?, [Lit("dreg "), Decimal(OrZero(e.dreg)), Lit(" ")]),
      When(e.lookupFlags.Some?, [Lit("0x"), Hex(OrZero(e.lookupFlags)), Lit(" ")]) ]
  }

  function BitwiseBoolCalls(e: Expr): seq<CString>
    requires e.Bitwise?
  {
    [ Flat([Lit("reg "), Decimal(OrZero(e.dreg)), Lit(" = ( reg "), Decimal(OrZero(e.sreg)), Lit(" & ")]),
      ValueText(e.mask, false),
      Lit(") ^ "),
      ValueText(e.xor, false) ]
  }

  function BitwiseShiftCalls(e: Expr, op: CString): seq<CString>
    requires e.Bitwise?
  {
    [ Flat([Lit("reg "), Decimal(OrZero(e.dreg)), Lit(" = ( reg "), Decimal(OrZero(e.sreg)), Lit(" "), op, Lit(" ")]),
      ValueText(e.data, false),
      Lit(") ") ]
  }

  /** An unknown operation prints nothing. */
  function BitwiseText(e: Expr): CString
    requires e.Bitwise?
  {
    if OrZero(e.op) == 0 then Flat(BitwiseBoolCalls(e))
    else if OrZero(e.op) == 1 then Flat(BitwiseShiftCalls(e, Lit("<<")))
    else if OrZero(e.op) == 2 then Flat(BitwiseShiftCalls(e, Lit(">>")))
    else []
  }

  /** The data registers of the expressions inside a dynset come without prefix: their
      printer gets NFTNL_OF_EVENT_ANY, which includes the bit of DATA_F_NOPFX. */
  function DynsetCalls(e: Expr): seq<CString>
    requires e.Dynset?
    decreases e, 0
  {
    [ Flat([DynsetOpName(OrZero(e.op)), Lit(" reg_key "), Decimal(OrZero(e.sregKey)),
            Lit(" set "), Str(e.setName), Lit(" ")]),
      When(e.sregData.Some?, [Lit("sreg_data "), Decimal(OrZero(e.sregData)), Lit(" ")]),
      When(e.timeout.Some?, [Lit("timeout "), Amount(e.timeout), Lit("ms ")]),
      BracketedAll(Lit("expr [ "), e.exprs, true, Lit("] ")) ]
  }

  /** The text of an expression; `noPrefix` is the one bit of the flags that data
      registers look at. */
  function ExprText(e: Expr, noPrefix: bool): CString
    decreases e, 1
  {
    match e
    case Immediate(_, _, _, _, _) => Flat(ImmediateCalls(e, noPrefix))
    case Cmp(_, _, _) => Flat(CmpCalls(e))
    case Lookup(_, _, _, _, _) => Flat(LookupCalls(e))
    case Bitwise(_, _, _, _, _, _, _) => BitwiseText(e)
    case Dynset(_, _, _, _, _, _, _, _) => Flat(DynsetCalls(e))
    case Notrack => []
  }

  /** The flags handed down by a dynset change the text of an inner expression exactly
      when it is an immediate with a value of at least one byte: the same expression
      prints with the prefix 0x in a rule and without it in a dynset. */
  lemma PrefixInDynset(e: Expr)
    ensures ExprText(e, true) != ExprText(e, false) <==> e.Immediate? && e.data.Some? && e.data.value != []
  {
    hide ValueText, VerdictCalls, Lit, Decimal;
    if e.Immediate? {
      var head := Flat([Lit("reg "), Decimal(OrZero(e.dreg)), Lit(" ")]);
      TwoCalls(head, ImmediateCalls(e, true)[1]);
      TwoCalls(head, ImmediateCalls(e, false)[1]);
      PrefixShows(e.data);
      SamePrefix(head, ImmediateCalls(e, true)[1], ImmediateCalls(e, false)[1]);
    }
  }

  lemma SamePrefix(head: bytes, a: bytes, b: bytes)
    ensures head + a == head + b <==> a == b
  {
    assert (head + a)[|head|..] == a && (head + b)[|head|..] == b;
  }

  /** An expression in brackets. */
  function Bracketed(open: CString, e: Expr, noPrefix: bool, close: CString): CString
    decreases e, 2
  {
    Flat([Flat([open, OpsName(OpsOf(e)), Lit(" ")]), ExprText(e, noPrefix), close])
  }

  function BracketedAll(open: CString, es: seq<Expr>, noPrefix: bool, close: CString): CString
    decreases es
  {
    if es == [] then []
    else BracketedAll(open, es[..|es| - 1], noPrefix, close) + Bracketed(open, es[|es| - 1], noPrefix, close)
  }

  // ---------- rules and sets ----------

  /** isprint in the C locale */
  predicate Printable(c: byte) {
    0x20 <= c < 0x7F
  }

  function CharText(c: byte): CString {
    if Printable(c) then [c] else Flat([Lit("\\x"), HexPadded(c, 2)])
  }

  function CharsText(b: bytes): CString {
    if b == [] then [] else CharsText(b[..|b| - 1]) + CharText(b[|b| - 1])
  }

  function UserdataCalls(userdata: Option<bytes>): seq<CString> {
    if userdata.None? || userdata.value == [] then []
    else [Lit("  userdata = { "), CharsText(userdata.value), Lit(" }")]
  }

  /** The attributes in the first line of a rule, as text, when they are set. */
  function RuleWords(r: RuleValue): seq<Option<CString>> {
    [ if r.family.Some? then Some(FamilyName(r.family.value)) else None,
      r.table,
      r.chain,
      if r.handle.Some? then Some(Decimal(r.handle.value)) else None,
      if r.position.Some? then Some(Decimal(r.position.value)) else None,
      if r.id.Some? then Some(Decimal(r.id.value)) else None,
      if r.positionId.Some? then Some(Decimal(r.positionId.value)) else None ]
  }

  /** The words that are set, with a blank between two of them. */
  function Joined(words: seq<Option<CString>>): CString {
    if words == [] then []
    else
      var before, last := words[..|words| - 1], words[|words| - 1];
      if last.None? then Joined(before) else Joined(before) + Flat([Separator(before), last.value])
  }

  function Separator(words: seq<Option<CString>>): CString {
    if words == [] then []
    else if words[|words| - 1].Some? then Lit(" ")
    else Separator(words[..|words| - 1])
  }

  function RuleCalls(r: RuleValue): seq<CString> {
    [ Joined(RuleWords(r)),
      Lit("\n"),
      BracketedAll(Lit("  [ "), r.exprs, false, Lit("]\n")),
      Flat(UserdataCalls(r.userdata)) ]
  }

  function RuleText(r: RuleValue): CString {
    Flat(RuleCalls(r))
  }

  function ElemCalls(e: SetElem): seq<CString> {
    [ Lit("element "),
      ValueText(e.key, true),
      if e.keyEnd.Some? then Lit(" - ") else [],
      if e.keyEnd.Some? then ValueText(e.keyEnd, true) else [],
      Lit(" : "),
      if e.verdict.Some? then Flat(VerdictCalls(e.verdict, e.chain)) else ValueText(e.data, true),
      Flat([Decimal(OrZero(e.flags)), Lit(" [end]")]),
      Flat(UserdataCalls(e.userdata)) ]
  }

  function ElemText(e: SetElem): CString {
    Flat(ElemCalls(e))
  }

  function ElemLines(es: seq<SetElem>): CString {
    if es == [] then [] else ElemLines(es[..|es| - 1]) + Flat([Lit("\t"), ElemText(es[|es| - 1])])
  }

  /** The part of a set that its printer shows. */
  datatype SetValue = SetValue(name: Option<CString>, table: Option<CString>, setFlags: Option<u32>,
                               timeout: Option<u64>, gcInterval: Option<u32>, policy: Option<u32>,
                               descSize: Option<u32>, elems: seq<SetElem>)

  function SetCalls(s: SetValue): seq<CString> {
    [ Flat([Str(s.name), Lit(" "), Str(s.table), Lit(" "), Hex(OrZero(s.setFlags))]),
      When(s.timeout.Some?, [Lit(" timeout "), Amount(s.timeout), Lit("ms")]),
      When(s.gcInterval.Some?, [Lit(" gc_interval "), Decimal(OrZero(s.gcInterval)), Lit("ms")]),
      When(s.policy.Some?, [Lit(" policy "), Decimal(OrZero(s.policy))]),
      When(s.descSize.Some?, [Lit(" size "), Decimal(OrZero(s.descSize))]),
      When(s.elems != [], [Lit("\n")]),
      ElemLines(s.elems) ]
  }

  function SetText(s: SetValue): CString {
    Flat(SetCalls(s))
  }
}
