/** The texts again, as the format strings of the library's snprintf calls: an expander of
    formats that knows nothing of the pieces in `Texts`, and for each printer the formats
    and arguments of its source. */
module Formats {
  import opened Wrappers
  import opened Bytes
  import opened Exprs
  import opened Rules
  import opened SetElems
  import opened Texts
  import opened Printer

  /** An argument of snprintf. */
  datatype Arg = Num(n: nat) | Text(s: CString)

  function NumOf(args: seq<Arg>): nat {
    if args != [] && args[0].Num? then args[0].n else 0
  }

  function TextOf(args: seq<Arg>): CString {
    if args != [] && args[0].Text? then args[0].s else []
  }

  function Next(args: seq<Arg>): seq<Arg> {
    if args == [] then [] else args[1..]
  }

  /** The expansion of a format with the conversions that the library uses. */
  function Expand(fmt: string, args: seq<Arg>): bytes {
    if fmt == [] then []
    else if "%u" <= fmt then Decimal(NumOf(args)) + Expand(fmt[2..], Next(args))
    else if "%lu" <= fmt then Decimal(NumOf(args)) + Expand(fmt[3..], Next(args))
    else if "%x" <= fmt then Hex(NumOf(args)) + Expand(fmt[2..], Next(args))
    else if "%s" <= fmt then TextOf(args) + Expand(fmt[2..], Next(args))
    else if "%.8x" <= fmt then HexPadded(NumOf(args), 8) + Expand(fmt[4..], Next(args))
    else if "%02hhx" <= fmt then HexPadded(NumOf(args), 2) + Expand(fmt[6..], Next(args))
    else [fmt[0] as int % 0x100] + Expand(fmt[1..], args)
  }

  // ---------- formats in pieces ----------

  /** A piece of a format: characters as they are, or a conversion with its argument. */
  datatype Piece =
    | Chars(chars: string) | U(n: nat) | LU(n: nat) | X(n: nat) | S(s: CString) | Word8(n: nat) | Byte2(n: nat)

  function FormatOf(p: Piece): string {
    match p
    case Chars(s) => s
    case U(_) => "%u"
    case LU(_) => "%lu"
    case X(_) => "%x"
    case S(_) => "%s"
    case Word8(_) => "%.8x"
    case Byte2(_) => "%02hhx"
  }

  function ArgsOf(p: Piece): seq<Arg> {
    match p
    case Chars(_) => []
    case S(s) => [Text(s)]
    case _ => [Num(p.n)]
  }

  function TextOfPiece(p: Piece): CString {
    match p
    case Chars(s) => Lit(s)
    case U(n) => Decimal(n)
    case LU(n) => Decimal(n)
    case X(n) => Hex(n)
    case S(s) => s
    case Word8(n) => HexPadded(n, 8)
    case Byte2(n) => HexPadded(n, 2)
  }

  predicate Plain(s: string) {
    forall i :: 0 <= i < |s| ==> 0 < s[i] as int < 0x100 && s[i] != '%'
  }

  lemma LitCons(c: char, s: string)
    requires 0 < c as int < 0x100
    ensures Lit([c] + s) == [c as int] + Lit(s)
  {
    var b := seq(|s| + 1, i requires 0 <= i < |s| + 1 => ([c] + s)[i] as int % 0x100);
    assert b[1..] == seq(|s|, i requires 0 <= i < |s| => s[i] as int % 0x100);
  }

  lemma {:induction false} ExpandChars(s: string, rest: string, args: seq<Arg>)
    requires Plain(s)
    ensures Expand(s + rest, args) == Lit(s) + Expand(rest, args)
  {
    hide Lit, Expand;
    if s == [] {
      LitNothing();
      assert s + rest == rest && [] + Expand(rest, args) == Expand(rest, args);
    } else {
      var c, tail := s[0], s[1..];
      ExpandChars(tail, rest, args);
      ExpandOne(c, tail + rest, args);
      LitCons(c, tail);
      assert [c] + tail == s && s + rest == [c] + (tail + rest);
      ConcatAssociative([c as int], Lit(tail), Expand(rest, args));
    }
  }

  lemma LitNothing()
    ensures Lit("") == []
  {
  }

  lemma ExpandOne(c: char, rest: string, args: seq<Arg>)
    requires 0 < c as int < 0x100 && c != '%'
    ensures Expand([c] + rest, args) == [c as int] + Expand(rest, args)
  {
    hide Decimal, Hex, HexPadded;
    var fmt := [c] + rest;
    assert fmt[0] == c && fmt[1..] == rest;
  }

  lemma ExpandPiece(p: Piece, rest: string, args: seq<Arg>)
    requires p.Chars? ==> Plain(p.chars)
    ensures Expand(FormatOf(p) + rest, ArgsOf(p) + args) == TextOfPiece(p) + Expand(rest, args)
  {
    hide Decimal, Hex, HexPadded, Lit;
    var fmt, all := FormatOf(p) + rest, ArgsOf(p) + args;
    match p
    case Chars(s) =>
      assert all == args;
      ExpandChars(s, rest, args);
    case _ =>
      assert Next(all) == args && fmt[|FormatOf(p)|..] == rest;
      assert fmt[0] == '%' && fmt[1] == FormatOf(p)[1];
  }

  lemma {:induction false} FlatCons(a: CString, parts: seq<CString>)
    ensures Flat([a] + parts) == a + Flat(parts)
  {
    var n := |parts| - 1;
    if parts == [] {
      assert [a][..0] == [] && [a] + parts == [a];
    } else {
      FlatCons(a, parts[..n]);
      assert ([a] + parts)[..n + 1] == [a] + parts[..n];
      ConcatAssociative(a, Flat(parts[..n]), parts[n]);
    }
  }

  predicate Ok(p: Piece) {
    p.Chars? ==> Plain(p.chars)
  }

  lemma One(p: Piece)
    requires Ok(p)
    ensures Expand(FormatOf(p), ArgsOf(p)) == Flat([TextOfPiece(p)])
  {
    hide TextOfPiece, FormatOf, ArgsOf;
    ExpandPiece(p, "", []);
    assert FormatOf(p) + "" == FormatOf(p) && ArgsOf(p) + [] == ArgsOf(p);
    FlatCons(TextOfPiece(p), []);
    assert [TextOfPiece(p)] + [] == [TextOfPiece(p)];
  }

  lemma Front(p: Piece, fmt: string, args: seq<Arg>, parts: seq<CString>)
    requires Ok(p) && Expand(fmt, args) == Flat(parts)
    ensures Expand(FormatOf(p) + fmt, ArgsOf(p) + args) == Flat([TextOfPiece(p)] + parts)
  {
    hide TextOfPiece, FormatOf, ArgsOf, Expand;
    ExpandPiece(p, fmt, args);
    FlatCons(TextOfPiece(p), parts);
  }

  lemma Two(p: Piece, q: Piece)
    requires Ok(p) && Ok(q)
    ensures Expand(FormatOf(p) + FormatOf(q), ArgsOf(p) + ArgsOf(q)) == Flat([TextOfPiece(p), TextOfPiece(q)])
  {
    hide TextOfPiece, FormatOf, ArgsOf, Expand, Flat;
    One(q);
    Front(p, FormatOf(q), ArgsOf(q), [TextOfPiece(q)]);
    assert [TextOfPiece(p)] + [TextOfPiece(q)] == [TextOfPiece(p), TextOfPiece(q)];
  }

  lemma Three(p: Piece, q: Piece, r: Piece)
    requires Ok(p) && Ok(q) && Ok(r)
    ensures Expand(FormatOf(p) + (FormatOf(q) + FormatOf(r)), ArgsOf(p) + (ArgsOf(q) + ArgsOf(r)))
         == Flat([TextOfPiece(p), TextOfPiece(q), TextOfPiece(r)])
  {
    hide TextOfPiece, FormatOf, ArgsOf, Expand, Flat;
    Two(q, r);
    Front(p, FormatOf(q) + FormatOf(r), ArgsOf(q) + ArgsOf(r), [TextOfPiece(q), TextOfPiece(r)]);
    assert [TextOfPiece(p)] + [TextOfPiece(q), TextOfPiece(r)] == [TextOfPiece(p), TextOfPiece(q), TextOfPiece(r)];
  }

  lemma Four(p: Piece, q: Piece, r: Piece, s: Piece)
    requires Ok(p) && Ok(q) && Ok(r) && Ok(s)
    ensures Expand(FormatOf(p) + (FormatOf(q) + (FormatOf(r) + FormatOf(s))),
                   ArgsOf(p) + (ArgsOf(q) + (ArgsOf(r) + ArgsOf(s))))
         == Flat([TextOfPiece(p), TextOfPiece(q), TextOfPiece(r), TextOfPiece(s)])
  {
    hide TextOfPiece, FormatOf, ArgsOf, Expand, Flat;
    Three(q, r, s);
    var parts := [TextOfPiece(q), TextOfPiece(r), TextOfPiece(s)];
    Front(p, FormatOf(q) + (FormatOf(r) + FormatOf(s)), ArgsOf(q) + (ArgsOf(r) + ArgsOf(s)), parts);
    assert [TextOfPiece(p)] + parts
        == [TextOfPiece(p), TextOfPiece(q), TextOfPiece(r), TextOfPiece(s)];
  }

  lemma Five(p: Piece, q: Piece, r: Piece, s: Piece, t: Piece)
    requires Ok(p) && Ok(q) && Ok(r) && Ok(s) && Ok(t)
    ensures Expand(FormatOf(p) + (FormatOf(q) + (FormatOf(r) + (FormatOf(s) + FormatOf(t)))),
                   ArgsOf(p) + (ArgsOf(q) + (ArgsOf(r) + (ArgsOf(s) + ArgsOf(t)))))
         == Flat([TextOfPiece(p), TextOfPiece(q), TextOfPiece(r), TextOfPiece(s), TextOfPiece(t)])
  {
    hide TextOfPiece, FormatOf, ArgsOf, Expand, Flat;
    Four(q, r, s, t);
    var parts := [TextOfPiece(q), TextOfPiece(r), TextOfPiece(s), TextOfPiece(t)];
    Front(p, FormatOf(q) + (FormatOf(r) + (FormatOf(s) + FormatOf(t))), ArgsOf(q) + (ArgsOf(r) + (ArgsOf(s)
        + ArgsOf(t))), parts);
    assert [TextOfPiece(p)] + parts
        == [TextOfPiece(p), TextOfPiece(q), TextOfPiece(r), TextOfPiece(s), TextOfPiece(t)];
  }

  lemma Six(p: Piece, q: Piece, r: Piece, s: Piece, t: Piece, u: Piece)
    requires Ok(p) && Ok(q) && Ok(r) && Ok(s) && Ok(t) && Ok(u)
    ensures Expand(FormatOf(p) + (FormatOf(q) + (FormatOf(r) + (FormatOf(s) + (FormatOf(t) + FormatOf(u))))),
                   ArgsOf(p) + (ArgsOf(q) + (ArgsOf(r) + (ArgsOf(s) + (ArgsOf(t) + ArgsOf(u))))))
         == Flat([TextOfPiece(p), TextOfPiece(q), TextOfPiece(r), TextOfPiece(s), TextOfPiece(t), TextOfPiece(u)])
  {
    hide TextOfPiece, FormatOf, ArgsOf, Expand, Flat;
    Five(q, r, s, t, u);
    var parts := [TextOfPiece(q), TextOfPiece(r), TextOfPiece(s), TextOfPiece(t), TextOfPiece(u)];
    Front(p, FormatOf(q) + (FormatOf(r) + (FormatOf(s) + (FormatOf(t) + FormatOf(u)))), ArgsOf(q)
        + (ArgsOf(r) + (ArgsOf(s) + (ArgsOf(t) + ArgsOf(u)))), parts);
    assert [TextOfPiece(p)] + parts
        == [TextOfPiece(p), TextOfPiece(q), TextOfPiece(r), TextOfPiece(s), TextOfPiece(t), TextOfPiece(u)];
  }

  lemma Seven(p: Piece, q: Piece, r: Piece, s: Piece, t: Piece, u: Piece, v: Piece)
    requires Ok(p) && Ok(q) && Ok(r) && Ok(s) && Ok(t) && Ok(u) && Ok(v)
    ensures Expand(FormatOf(p) + (FormatOf(q) + (FormatOf(r) + (FormatOf(s) + (FormatOf(t) + (FormatOf(u)
        + FormatOf(v)))))),
                   ArgsOf(p) + (ArgsOf(q) + (ArgsOf(r) + (ArgsOf(s) + (ArgsOf(t) + (ArgsOf(u) + ArgsOf(v)))))))
         == Flat([TextOfPiece(p), TextOfPiece(q), TextOfPiece(r), TextOfPiece(s), TextOfPiece(t),
             TextOfPiece(u), TextOfPiece(v)])
  {
    hide TextOfPiece, FormatOf, ArgsOf, Expand, Flat;
    Six(q, r, s, t, u, v);
    var parts := [TextOfPiece(q), TextOfPiece(r), TextOfPiece(s), TextOfPiece(t), TextOfPiece(u), TextOfPiece(v)];
    Front(p, FormatOf(q) + (FormatOf(r) + (FormatOf(s) + (FormatOf(t) + (FormatOf(u) + FormatOf(v))))),
        ArgsOf(q) + (ArgsOf(r) + (ArgsOf(s) + (ArgsOf(t) + (ArgsOf(u) + ArgsOf(v))))), parts);
    assert [TextOfPiece(p)] + parts
        == [TextOfPiece(p), TextOfPiece(q), TextOfPiece(r), TextOfPiece(s), TextOfPiece(t), TextOfPiece(u),
            TextOfPiece(v)];
  }

  // ---------- the formats of the library ----------

  lemma WordFormat(prefix: CString, n: nat)
    ensures Expand("%s%.8x ", [Text(prefix), Num(n)])
         == Flat([prefix, HexPadded(n, 8), Lit(" ")])
  {
    hide Expand, Flat, Lit, Decimal, Hex, HexPadded;
    Three(S(prefix), Word8(n), Chars(" "));
    assert "%s" + ("%.8x" + " ") == "%s%.8x ";
    assert [Text(prefix)] + ([Num(n)] + []) == [Text(prefix), Num(n)];
  }

  lemma NameFormat(s: CString)
    ensures Expand("%s ", [Text(s)])
         == Flat([s, Lit(" ")])
  {
    hide Expand, Flat, Lit, Decimal, Hex, HexPadded;
    Two(S(s), Chars(" "));
    assert "%s" + " " == "%s ";
    assert [Text(s)] + [] == [Text(s)];
  }

  lemma ChainFormat(s: CString)
    ensures Expand("-> %s ", [Text(s)])
         == Flat([Lit("-> "), s, Lit(" ")])
  {
    hide Expand, Flat, Lit, Decimal, Hex, HexPadded;
    Three(Chars("-> "), S(s), Chars(" "));
    assert "-> " + ("%s" + " ") == "-> %s ";
    assert [] + ([Text(s)] + []) == [Text(s)];
  }

  lemma RegFormat(n: nat)
    ensures Expand("reg %u ", [Num(n)])
         == Flat([Lit("reg "), Decimal(n), Lit(" ")])
  {
    hide Expand, Flat, Lit, Decimal, Hex, HexPadded;
    Three(Chars("reg "), U(n), Chars(" "));
    assert "reg " + ("%u" + " ") == "reg %u ";
    assert [] + ([Num(n)] + []) == [Num(n)];
  }

  lemma CmpFormat(s: CString, n: nat)
    ensures Expand("%s reg %u ", [Text(s), Num(n)])
         == Flat([s, Lit(" reg "), Decimal(n), Lit(" ")])
  {
    hide Expand, Flat, Lit, Decimal, Hex, HexPadded;
    Four(S(s), Chars(" reg "), U(n), Chars(" "));
    assert "%s" + (" reg " + ("%u" + " ")) == "%s reg %u ";
    assert [Text(s)] + ([] + ([Num(n)] + [])) == [Text(s), Num(n)];
  }

  lemma RegSetFormat(n: nat, s: CString)
    ensures Expand("reg %u set %s ", [Num(n), Text(s)])
         == Flat([Lit("reg "), Decimal(n), Lit(" set "), s, Lit(" ")])
  {
    hide Expand, Flat, Lit, Decimal, Hex, HexPadded;
    Five(Chars("reg "), U(n), Chars(" set "), S(s), Chars(" "));
    assert "reg " + ("%u" + (" set " + ("%s" + " "))) == "reg %u set %s ";
    assert [] + ([Num(n)] + ([] + ([Text(s)] + []))) == [Num(n), Text(s)];
  }

  lemma DregFormat(n: nat)
    ensures Expand("dreg %u ", [Num(n)])
         == Flat([Lit("dreg "), Decimal(n), Lit(" ")])
  {
    hide Expand, Flat, Lit, Decimal, Hex, HexPadded;
    Three(Chars("dreg "), U(n), Chars(" "));
    assert "dreg " + ("%u" + " ") == "dreg %u ";
    assert [] + ([Num(n)] + []) == [Num(n)];
  }

  lemma HexFormat(n: nat)
    ensures Expand("0x%x ", [Num(n)])
         == Flat([Lit("0x"), Hex(n), Lit(" ")])
  {
    hide Expand, Flat, Lit, Decimal, Hex, HexPadded;
    Three(Chars("0x"), X(n), Chars(" "));
    assert "0x" + ("%x" + " ") == "0x%x ";
    assert [] + ([Num(n)] + []) == [Num(n)];
  }

  lemma BoolFormat(n: nat, m: nat)
    ensures Expand("reg %u = ( reg %u & ", [Num(n), Num(m)])
         == Flat([Lit("reg "), Decimal(n), Lit(" = ( reg "), Decimal(m), Lit(" & ")])
  {
    hide Expand, Flat, Lit, Decimal, Hex, HexPadded;
    Five(Chars("reg "), U(n), Chars(" = ( reg "), U(m), Chars(" & "));
    assert "reg " + ("%u" + (" = ( reg " + ("%u" + " & "))) == "reg %u = ( reg %u & ";
    assert [] + ([Num(n)] + ([] + ([Num(m)] + []))) == [Num(n), Num(m)];
  }

  lemma ShiftFormat(n: nat, m: nat, s: CString)
    ensures Expand("reg %u = ( reg %u %s ", [Num(n), Num(m), Text(s)])
         == Flat([Lit("reg "), Decimal(n), Lit(" = ( reg "), Decimal(m), Lit(" "), s, Lit(" ")])
  {
    hide Expand, Flat, Lit, Decimal, Hex, HexPadded;
    Seven(Chars("reg "), U(n), Chars(" = ( reg "), U(m), Chars(" "), S(s), Chars(" "));
    assert "reg " + ("%u" + (" = ( reg " + ("%u" + (" " + ("%s" + " "))))) == "reg %u = ( reg %u %s ";
    assert [] + ([Num(n)] + ([] + ([Num(m)] + ([] + ([Text(s)] + []))))) == [Num(n), Num(m), Text(s)];
  }

  lemma DynsetFormat(s: CString, n: nat, s2: CString)
    ensures Expand("%s reg_key %u set %s ", [Text(s), Num(n), Text(s2)])
         == Flat([s, Lit(" reg_key "), Decimal(n), Lit(" set "), s2, Lit(" ")])
  {
    hide Expand, Flat, Lit, Decimal, Hex, HexPadded;
    Six(S(s), Chars(" reg_key "), U(n), Chars(" set "), S(s2), Chars(" "));
    assert "%s" + (" reg_key " + ("%u" + (" set " + ("%s" + " ")))) == "%s reg_key %u set %s ";
    assert [Text(s)] + ([] + ([Num(n)] + ([] + ([Text(s2)] + [])))) == [Text(s), Num(n), Text(s2)];
  }

  lemma SregFormat(n: nat)
    ensures Expand("sreg_data %u ", [Num(n)])
         == Flat([Lit("sreg_data "), Decimal(n), Lit(" ")])
  {
    hide Expand, Flat, Lit, Decimal, Hex, HexPadded;
    Three(Chars("sreg_data "), U(n), Chars(" "));
    assert "sreg_data " + ("%u" + " ") == "sreg_data %u ";
    assert [] + ([Num(n)] + []) == [Num(n)];
  }

  lemma TimeoutFormat(n: nat)
    ensures Expand("timeout %lums ", [Num(n)])
         == Flat([Lit("timeout "), Decimal(n), Lit("ms ")])
  {
    hide Expand, Flat, Lit, Decimal, Hex, HexPadded;
    Three(Chars("timeout "), LU(n), Chars("ms "));
    assert "timeout " + ("%lu" + "ms ") == "timeout %lums ";
    assert [] + ([Num(n)] + []) == [Num(n)];
  }

  lemma InnerFormat(s: CString)
    ensures Expand("expr [ %s ", [Text(s)])
         == Flat([Lit("expr [ "), s, Lit(" ")])
  {
    hide Expand, Flat, Lit, Decimal, Hex, HexPadded;
    Three(Chars("expr [ "), S(s), Chars(" "));
    assert "expr [ " + ("%s" + " ") == "expr [ %s ";
    assert [] + ([Text(s)] + []) == [Text(s)];
  }

  lemma OuterFormat(s: CString)
    ensures Expand("  [ %s ", [Text(s)])
         == Flat([Lit("  [ "), s, Lit(" ")])
  {
    hide Expand, Flat, Lit, Decimal, Hex, HexPadded;
    Three(Chars("  [ "), S(s), Chars(" "));
    assert "  [ " + ("%s" + " ") == "  [ %s ";
    assert [] + ([Text(s)] + []) == [Text(s)];
  }

  lemma ByteFormat(n: nat)
    ensures Expand("\\x%02hhx", [Num(n)])
         == Flat([Lit("\\x"), HexPadded(n, 2)])
  {
    hide Expand, Flat, Lit, Decimal, Hex, HexPadded;
    Two(Chars("\\x"), Byte2(n));
    assert "\\x" + "%02hhx" == "\\x%02hhx";
    assert [] + [Num(n)] == [Num(n)];
  }

  lemma EndFormat(n: nat)
    ensures Expand("%u [end]", [Num(n)])
         == Flat([Decimal(n), Lit(" [end]")])
  {
    hide Expand, Flat, Lit, Decimal, Hex, HexPadded;
    Two(U(n), Chars(" [end]"));
    assert "%u" + " [end]" == "%u [end]";
    assert [Num(n)] + [] == [Num(n)];
  }

  lemma SetFormat(s: CString, s2: CString, n: nat)
    ensures Expand("%s %s %x", [Text(s), Text(s2), Num(n)])
         == Flat([s, Lit(" "), s2, Lit(" "), Hex(n)])
  {
    hide Expand, Flat, Lit, Decimal, Hex, HexPadded;
    Five(S(s), Chars(" "), S(s2), Chars(" "), X(n));
    assert "%s" + (" " + ("%s" + (" " + "%x"))) == "%s %s %x";
    assert [Text(s)] + ([] + ([Text(s2)] + ([] + [Num(n)]))) == [Text(s), Text(s2), Num(n)];
  }

  lemma SetTimeoutFormat(n: nat)
    ensures Expand(" timeout %lums", [Num(n)])
         == Flat([Lit(" timeout "), Decimal(n), Lit("ms")])
  {
    hide Expand, Flat, Lit, Decimal, Hex, HexPadded;
    Three(Chars(" timeout "), LU(n), Chars("ms"));
    assert " timeout " + ("%lu" + "ms") == " timeout %lums";
    assert [] + ([Num(n)] + []) == [Num(n)];
  }

  lemma GcFormat(n: nat)
    ensures Expand(" gc_interval %ums", [Num(n)])
         == Flat([Lit(" gc_interval "), Decimal(n), Lit("ms")])
  {
    hide Expand, Flat, Lit, Decimal, Hex, HexPadded;
    Three(Chars(" gc_interval "), U(n), Chars("ms"));
    assert " gc_interval " + ("%u" + "ms") == " gc_interval %ums";
    assert [] + ([Num(n)] + []) == [Num(n)];
  }

  lemma PolicyFormat(n: nat)
    ensures Expand(" policy %u", [Num(n)])
         == Flat([Lit(" policy "), Decimal(n)])
  {
    hide Expand, Flat, Lit, Decimal, Hex, HexPadded;
    Two(Chars(" policy "), U(n));
    assert " policy " + "%u" == " policy %u";
    assert [] + [Num(n)] == [Num(n)];
  }

  lemma SizeFormat(n: nat)
    ensures Expand(" size %u", [Num(n)])
         == Flat([Lit(" size "), Decimal(n)])
  {
    hide Expand, Flat, Lit, Decimal, Hex, HexPadded;
    Two(Chars(" size "), U(n));
    assert " size " + "%u" == " size %u";
    assert [] + [Num(n)] == [Num(n)];
  }

  /** A format without conversions. */
  lemma PlainFormat(s: string)
    requires Plain(s)
    ensures Expand(s, []) == Lit(s)
  {
    hide Lit;
    ExpandChars(s, "", []);
    assert s + "" == s && Lit(s) + [] == Lit(s);
  }
}
